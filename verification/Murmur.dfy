/**
 Three forms of MurmurHash2: the one that reads words from any address
 (hash/murmur/MurmurHash2.cpp), the one that assembles them from bytes
 (hash/murmur/MurmurHashNeutral2.cpp) and the one that only reads aligned words and
 shifts them together (hash/murmur/MurmurHashAligned2.cpp), on a little-endian machine.
 */
module Murmur {
  import opened Hexadecimal
  import opened Powers
  import opened Words

  // ------------------------------------------------------------ the mixing steps

  /** The mixing steps; every form uses the same ones, and that the forms agree does not depend on what they are. */
  datatype Mixer = Mixer(mix: (u32, u32) -> u32, scramble: u32 -> u32, finish: u32 -> u32)

  const M: u32 := 0x5bd1e995

  function Times(h: u32): u32 { h * M % TWO_32 }

  function Mix(h: u32, k: u32): u32 {
    var k1 := Times(k);
    var k2 := Times(Xor32(k1, k1 / 0x100_0000));
    Xor32(Times(h), k2)
  }

  function Finish(h: u32): u32 {
    var h1 := Times(Xor32(h, h / 0x2000));
    Xor32(h1, h1 / 0x8000)
  }

  const MURMUR: Mixer := Mixer(Mix, Times, Finish)

  // ------------------------------------------------------------ little-endian words

  function Pow256(n: nat): (r: nat)
    ensures r >= 1
  {
    if n == 0 then 1 else 256 * Pow256(n - 1)
  }

  /** The n bytes from position i as a number, low-order byte first. */
  function Pack(d: seq<byte>, i: nat, n: nat): (r: nat)
    requires i + n <= |d|
    ensures r < Pow256(n)
    decreases n
  {
    if n == 0 then 0 else d[i] as int + 256 * Pack(d, i + 1, n - 1)
  }

  lemma PowFour()
    ensures Pow256(1) == 256 && Pow256(2) == 65536 && Pow256(3) == 16777216 && Pow256(4) == TWO_32
  {
    assert Pow256(2) == 256 * 256;
  }

  /** A word of up to four bytes. */
  function PackWord(d: seq<byte>, i: nat, n: nat): (r: u32)
    requires n <= 4 && i + n <= |d|
    ensures r == Pack(d, i, n)
  {
    PowFour();
    Pow256Monotone(n, 4);
    Pack(d, i, n)
  }

  lemma {:induction false} Pow256Monotone(a: nat, b: nat)
    requires a <= b
    ensures Pow256(a) <= Pow256(b)
    decreases b - a
  {
    if a < b { Pow256Monotone(a, b - 1); }
  }

  lemma {:induction false} PackSplit(d: seq<byte>, i: nat, a: nat, b: nat)
    requires i + a + b <= |d|
    ensures Pack(d, i, a + b) == Pack(d, i, a) + Pow256(a) * Pack(d, i + a, b)
    decreases a
  {
    if a == 0 {
    } else {
      PackSplit(d, i + 1, a - 1, b);
      Swap(256, Pow256(a - 1), Pack(d, i + a, b));
      assert i + 1 + (a - 1) == i + a;
    }
  }

  lemma {:induction false} Pow256Add(a: nat, b: nat)
    ensures Pow256(a + b) == Pow256(a) * Pow256(b)
    decreases a
  {
    if a == 0 {
    } else {
      Pow256Add(a - 1, b);
      Swap(256, Pow256(a - 1), Pow256(b));
    }
  }

  lemma {:induction false} PowersAgree(n: nat)
    ensures Pow256(n) == Pow2(8 * n)
  {
    if n == 0 {
    } else {
      PowersAgree(n - 1);
      Pow2Step(8 * (n - 1));
      assert 8 * (n - 1) + 8 == 8 * n;
    }
  }

  /** Shifts by a number of bytes. */
  function Up(x: u32, n: nat): (r: u32)
  {
    Positive(x, Pow256(n));
    x * Pow256(n) % TWO_32
  }

  function Down(x: u32, n: nat): (r: u32)
    ensures r == x / Pow256(n)
  {
    DivMod(x, Pow256(n));
    MulLe(1, Pow256(n), x / Pow256(n));
    x / Pow256(n)
  }

  // ------------------------------------------------------------ or and xor of disjoint parts

  lemma OrParts(a: u32, b: nat, n: nat)
    requires n <= 4 && a < Pow256(n) && b * Pow256(n) < TWO_32
    ensures b * Pow256(n) >= 0 && Or32(a, b * Pow256(n)) == a + b * Pow256(n)
  {
    Positive(b, Pow256(n));
    PowersAgree(n);
    Pow2Constants();
    ZipDisjoint((x, y) => x || y, a, b, 8 * n, 32);
  }

  lemma XorParts(h: u32, a: u32, b: nat, n: nat)
    requires n <= 4 && a < Pow256(n) && 0 <= b * Pow256(n) < TWO_32 && a + b * Pow256(n) < TWO_32
    ensures Xor32(Xor32(h, b * Pow256(n)), a) == Xor32(h, a + b * Pow256(n))
  {
    PowersAgree(n);
    Pow2Constants();
    XorAssociates(h, b * Pow256(n), a, 32);
    ZipDisjoint((x, y) => x != y, a, b, 8 * n, 32);
    XorCommutes(a, b * Pow256(n), 32);
  }

  // ------------------------------------------------------------ what is computed

  /** h after mixing in the first n words. */
  function Body(m: Mixer, h: u32, d: seq<byte>, n: nat): u32
    requires 4 * n <= |d|
  {
    if n == 0 then h else m.mix(Body(m, h, d, n - 1), PackWord(d, 4 * (n - 1), 4))
  }

  /** h after the one to three bytes that are left, if any. */
  function Rest(m: Mixer, h: u32, d: seq<byte>, i: nat): u32
    requires i <= |d| < i + 4
  {
    if i == |d| then h else m.scramble(Xor32(h, PackWord(d, i, |d| - i)))
  }

  function Hash(m: Mixer, d: seq<byte>, h0: u32): u32 {
    var n := |d| / 4;
    m.finish(Rest(m, Body(m, h0, d, n), d, 4 * n))
  }

  lemma HashIs(m: Mixer, d: seq<byte>, h0: u32, n: nat)
    requires 4 * n <= |d| < 4 * n + 4
    ensures Hash(m, d, h0) == m.finish(Rest(m, Body(m, h0, d, n), d, 4 * n))
  {
    assert n == |d| / 4;
  }

  /** A byte shifted up to its place in a word. */
  function Placed(d: seq<byte>, i: nat, n: nat): u32
    requires i + n < |d| && n <= 3
  {
    PowFour();
    if n == 0 then d[i] as int
    else if n == 1 then d[i + 1] as int * 256
    else if n == 2 then d[i + 2] as int * 65536
    else d[i + 3] as int * 16777216
  }

  lemma PlacedIs(d: seq<byte>, i: nat, n: nat)
    requires i + n < |d| && n <= 3
    ensures Placed(d, i, n) == d[i + n] as int * Pow256(n)
    ensures Pack(d, i, n + 1) == Pack(d, i, n) + Placed(d, i, n)
  {
    PowFour();
    PackSplit(d, i, n, 1);
    assert Pack(d, i + n, 1) == d[i + n] as int;
  }

  // ------------------------------------------------------------ the fall-through switches

  /** The switch that xors the last bytes into h, the topmost first. */
  method TailSwitch(m: Mixer, h: u32, d: seq<byte>, i: nat) returns (r: u32)
    requires i <= |d| < i + 4
    ensures r == Rest(m, h, d, i)
  {
    r := h;
    var len := |d| - i;
    if len >= 1 {
      XorTail(h, d, i, len);
      if len == 3 {
        r := Xor32(r, Placed(d, i, 2));
      }
      if len >= 2 {
        r := Xor32(r, Placed(d, i, 1));
      }
      r := Xor32(r, Placed(d, i, 0));
      r := m.scramble(r);
    }
  }

  lemma XorStep(h: u32, d: seq<byte>, i: nat, n: nat)
    requires 1 <= n <= 2 && i + n < |d|
    ensures Xor32(Xor32(h, Placed(d, i, n)), PackWord(d, i, n)) == Xor32(h, PackWord(d, i, n + 1))
  {
    PlacedIs(d, i, n);
    XorParts(h, PackWord(d, i, n), d[i + n], n);
  }

  lemma XorTail(h: u32, d: seq<byte>, i: nat, len: nat)
    requires 1 <= len <= 3 && i + len <= |d|
    ensures var h3 := if len == 3 then Xor32(h, Placed(d, i, 2)) else h;
            var h2 := if len >= 2 then Xor32(h3, Placed(d, i, 1)) else h3;
            Xor32(h2, Placed(d, i, 0)) == Xor32(h, PackWord(d, i, len))
  {
    assert Pack(d, i, 1) == d[i] as int;
    if len == 3 {
      XorStep(h, d, i, 2);
      XorStep(Xor32(h, Placed(d, i, 2)), d, i, 1);
    } else if len == 2 {
      XorStep(h, d, i, 1);
    }
  }

  /** The switch that ors up to three bytes into an empty word, the topmost first. */
  method Gather(d: seq<byte>, i: nat, n: nat) returns (r: u32)
    requires n <= 3 && i + n <= |d|
    ensures r == PackWord(d, i, n)
  {
    OrGathers(d, i, n);
    r := 0;
    if n == 3 {
      r := Or32(r, Placed(d, i, 2));
    }
    if n >= 2 {
      r := Or32(r, Placed(d, i, 1));
    }
    if n >= 1 {
      r := Or32(r, Placed(d, i, 0));
    }
  }

  lemma {:induction false} OrCommutes(a: nat, b: nat, n: nat)
    ensures var f := (x: bool, y: bool) => x || y;
            Zip(f, a, b, n) == Zip(f, b, a, n)
  {
    if n == 0 {
    } else {
      OrCommutes(a / 2, b / 2, n - 1);
    }
  }

  lemma {:induction false} OrAssociates(a: nat, b: nat, c: nat, n: nat)
    ensures var f := (x: bool, y: bool) => x || y;
            Zip(f, Zip(f, a, b, n), c, n) == Zip(f, a, Zip(f, b, c, n), n)
  {
    var f := (x: bool, y: bool) => x || y;
    if n == 0 {
    } else {
      OrAssociates(a / 2, b / 2, c / 2, n - 1);
      ZipParts(f, a, b, n);
      ZipParts(f, b, c, n);
    }
  }

  lemma OrZero(b: u32)
    ensures Or32(0, b) == b
  {
    Pow2Constants();
    ZipZero((x, y) => x || y, b, 32);
  }

  lemma OrPlaced(d: seq<byte>, i: nat, n: nat)
    requires n <= 3 && i + n < |d|
    ensures Or32(PackWord(d, i, n), Placed(d, i, n)) == PackWord(d, i, n + 1)
    ensures Or32(Placed(d, i, n), PackWord(d, i, n)) == PackWord(d, i, n + 1)
  {
    PlacedIs(d, i, n);
    OrParts(PackWord(d, i, n), d[i + n], n);
    OrCommutes(PackWord(d, i, n), Placed(d, i, n), 32);
  }

  lemma OrGathers(d: seq<byte>, i: nat, n: nat)
    requires n <= 3 && i + n <= |d|
    ensures n == 1 ==> Or32(0, Placed(d, i, 0)) == Pack(d, i, 1)
    ensures n == 2 ==> Or32(Or32(0, Placed(d, i, 1)), Placed(d, i, 0)) == Pack(d, i, 2)
    ensures n == 3 ==> Or32(Or32(Or32(0, Placed(d, i, 2)), Placed(d, i, 1)), Placed(d, i, 0)) == Pack(d, i, 3)
  {
    if n >= 1 {
      assert Pack(d, i, 1) == d[i] as int == Placed(d, i, 0);
    }
    if n == 1 {
      OrZero(Placed(d, i, 0));
    } else if n == 2 {
      OrZero(Placed(d, i, 1));
      OrPlaced(d, i, 1);
    } else if n == 3 {
      OrZero(Placed(d, i, 2));
      OrPlaced(d, i, 1);
      OrPlaced(d, i, 2);
      OrAssociates(Placed(d, i, 2), Placed(d, i, 1), Placed(d, i, 0), 32);
    }
  }

  /** The word the endian-neutral form assembles, from the bottom. */
  method Assemble(d: seq<byte>, i: nat) returns (k: u32)
    requires i + 4 <= |d|
    ensures k == PackWord(d, i, 4)
  {
    OrPlaced(d, i, 1);
    OrPlaced(d, i, 2);
    OrPlaced(d, i, 3);
    k := Placed(d, i, 0);
    assert k == PackWord(d, i, 1);
    k := Or32(k, Placed(d, i, 1));
    k := Or32(k, Placed(d, i, 2));
    k := Or32(k, Placed(d, i, 3));
  }

  // ------------------------------------------------------------ unaligned reads

  method MurmurHash2(m: Mixer, d: seq<byte>, h0: u32) returns (h: u32)
    ensures h == Hash(m, d, h0)
  {
    h := h0;
    var data, len := 0, |d|;
    ghost var n := 0;
    while len >= 4
      invariant 0 <= len && data + len == |d| && data == 4 * n
      invariant h == Body(m, h0, d, n)
    {
      var k := PackWord(d, data, 4);
      h := m.mix(h, k);
      data := data + 4;
      len := len - 4;
      n := n + 1;
    }
    HashIs(m, d, h0, n);
    h := TailSwitch(m, h, d, data);
    h := m.finish(h);
  }

  method MurmurHashNeutral2(m: Mixer, d: seq<byte>, h0: u32) returns (h: u32)
    ensures h == Hash(m, d, h0)
  {
    h := h0;
    var data, len := 0, |d|;
    ghost var n := 0;
    while len >= 4
      invariant 0 <= len && data + len == |d| && data == 4 * n
      invariant h == Body(m, h0, d, n)
    {
      var k := Assemble(d, data);
      h := m.mix(h, k);
      data := data + 4;
      len := len - 4;
      n := n + 1;
    }
    HashIs(m, d, h0, n);
    h := TailSwitch(m, h, d, data);
    h := m.finish(h);
  }

  // ------------------------------------------------------------ aligned reads

  /**
   Between two turns of the aligned loop: the words before position 4*j are mixed in,
   and the bytes from there to the next aligned address are the top of t.
   */
  predicate Straddles(d: seq<byte>, t: u32, align: nat, j: nat)
    requires 1 <= align <= 3 && 4 * j + (4 - align) <= |d|
  {
    Down(t, align) == Pack(d, 4 * j, 4 - align)
  }

  // The bytes in front of the first aligned address, shifted to the top.
  lemma PreloadStraddles(d: seq<byte>, align: nat)
    requires 1 <= align <= 3 && |d| >= 4
    ensures Straddles(d, Up(PackWord(d, 0, 4 - align), align), align, 0)
  {
    var g := PackWord(d, 0, 4 - align);
    UpFits(g, align);
    ExactQuotient(g, Pow256(align));
  }

  // A number short enough is shifted up without loss.
  lemma UpFits(x: u32, n: nat)
    requires n <= 4 && x < Pow256(4 - n)
    ensures Up(x, n) == x * Pow256(n)
  {
    Pow256Add(4 - n, n);
    PowFour();
    Positive(x, Pow256(n));
    MulLe(x, Pow256(4 - n) - 1, Pow256(n));
    Distribute(Pow256(4 - n), 1, Pow256(n));
    assert x * Pow256(n) < TWO_32;
  }

  /** What the loop assembles from the word before and the word read now. */
  function Joined(t: u32, w: u32, align: nat): u32
    requires 1 <= align <= 3
  {
    Or32(Down(t, align), Up(w, 4 - align))
  }

  // Shifting a whole word up drops all but its lowest bytes, and down all but its highest.
  lemma UpWord(d: seq<byte>, i: nat, a: nat)
    requires 1 <= a <= 3 && i + 4 <= |d|
    ensures Up(PackWord(d, i, 4), 4 - a) == Up(PackWord(d, i, a), 4 - a)
    ensures Down(PackWord(d, i, 4), a) == Pack(d, i + a, 4 - a)
  {
    PackSplit(d, i, a, 4 - a);
    SplitWord(PackWord(d, i, 4), PackWord(d, i, a), PackWord(d, i + a, 4 - a), a);
  }

  lemma UpDropsHigh(w: u32, lo: u32, hi: u32, a: nat, p: nat)
    requires w == lo + Pow256(a) * hi && Pow256(a) * p == TWO_32
    ensures w * p % TWO_32 == lo * p % TWO_32
  {
    Distribute(lo, Pow256(a) * hi, p);
    Swap(Pow256(a), hi, p);
    Positive(lo, p);
    ModDrops(lo * p, hi);
  }

  lemma SplitWord(w: u32, lo: u32, hi: u32, a: nat)
    requires 1 <= a <= 3 && w == lo + Pow256(a) * hi && lo < Pow256(a)
    ensures Up(w, 4 - a) == Up(lo, 4 - a) && Down(w, a) == hi
  {
    QuotientUnique(w, Pow256(a), hi);
    assert Pow256(a) * Pow256(4 - a) == TWO_32 by {
      Pow256Add(a, 4 - a);
      PowFour();
    }
    UpDropsHigh(w, lo, hi, a, Pow256(4 - a));
  }

  lemma ModDrops(x: nat, q: nat)
    ensures (x + TWO_32 * q) % TWO_32 == x % TWO_32
  {
  }

  // What is held back in t and the next n bytes, shifted together, are the bytes across them.
  lemma JoinedRest(d: seq<byte>, t: u32, align: nat, j: nat, n: nat)
    requires 1 <= align <= 3 && n <= align && 4 * j + (4 - align) + n <= |d|
    requires Straddles(d, t, align, j)
    ensures Joined(t, PackWord(d, 4 * j + (4 - align), n), align) == Pack(d, 4 * j, 4 - align + n)
  {
    var i, a := 4 * j, 4 - align;
    Pow256Monotone(n, align);
    PackSplit(d, i, a, n);
    JoinedIsSum(t, PackWord(d, i + a, n), align);
  }

  lemma JoinedIsSum(t: u32, w: u32, align: nat)
    requires 1 <= align <= 3 && w < Pow256(align) && Down(t, align) < Pow256(4 - align)
    ensures Joined(t, w, align) == Down(t, align) + Pow256(4 - align) * w
  {
    UpFits(w, 4 - align);
    OrParts(Down(t, align), w, 4 - align);
  }

  // Two aligned words shifted together are the word that lies across them.
  lemma JoinedWord(d: seq<byte>, t: u32, align: nat, j: nat)
    requires 1 <= align <= 3 && 4 * j + (4 - align) + 4 <= |d|
    requires Straddles(d, t, align, j)
    ensures Joined(t, PackWord(d, 4 * j + (4 - align), 4), align) == Pack(d, 4 * j, 4)
    ensures Straddles(d, PackWord(d, 4 * j + (4 - align), 4), align, j + 1)
  {
    UpWord(d, 4 * j + (4 - align), align);
    JoinedRest(d, t, align, j, align);
    assert 4 * j + (4 - align) + align == 4 * (j + 1);
  }

  /** The form that starts at an address which is `align` modulo 4 and reads only aligned words. */
  method MurmurHashAligned2(m: Mixer, d: seq<byte>, align: nat, h0: u32) returns (h: u32)
    requires align <= 3
    ensures h == Hash(m, d, h0)
  {
    if align != 0 && |d| >= 4 {
      var t := Gather(d, 0, 4 - align);
      t := Up(t, align);
      PreloadStraddles(d, align);
      var data: nat, len: nat;
      ghost var j: nat, n: nat;
      h, t, data, len, j := AlignedLoop(m, d, align, h0, t);
      h, n := AlignedTail(m, d, align, h0, j, h, t, data, len);
      HashIs(m, d, h0, n);
      h := m.finish(h);
    } else {
      h := MurmurHash2(m, d, h0);
    }
  }

  method AlignedLoop(m: Mixer, d: seq<byte>, align: nat, h0: u32, t0: u32)
    returns (h: u32, t: u32, data: nat, len: nat, ghost j: nat)
    requires 1 <= align <= 3 && |d| >= 4 && Straddles(d, t0, align, 0)
    ensures data == 4 * j + (4 - align) && data + len == |d| && len < 4
    ensures h == Body(m, h0, d, j) && Straddles(d, t, align, j)
  {
    h, t, j := h0, t0, 0;
    data, len := 4 - align, |d| - (4 - align);
    while len >= 4
      invariant data == 4 * j + (4 - align) && data + len == |d|
      invariant h == Body(m, h0, d, j) && Straddles(d, t, align, j)
    {
      var word := PackWord(d, data, 4);
      JoinedWord(d, t, align, j);
      t := Joined(t, word, align);
      h := m.mix(h, t);
      t := word;
      data := data + 4;
      len := len - 4;
      j := j + 1;
    }
  }

  /** After the loop: fewer than four bytes to read, and some more held in t. */
  method AlignedTail(m: Mixer, d: seq<byte>, align: nat, ghost start: u32, ghost j: nat, h0: u32, t: u32, data: nat, len: nat)
    returns (h: u32, ghost n: nat)
    requires 1 <= align <= 3 && data == 4 * j + (4 - align) && data + len == |d| && len < 4
    requires h0 == Body(m, start, d, j) && Straddles(d, t, align, j)
    ensures 4 * n <= |d| < 4 * n + 4 && h == Rest(m, Body(m, start, d, n), d, 4 * n)
  {
    if len >= align {
      n := j + 1;
      h := LastWord(m, d, align, j, h0, t, data);
      assert h == Body(m, start, d, n);
      var next := data + align;
      assert next == 4 * n;
      h := TailSwitch(m, h, d, next);
    } else {
      n := j;
      h := LastBytes(m, d, align, j, h0, t, data, len);
    }
  }

  /** Enough bytes for one more word. */
  method LastWord(m: Mixer, d: seq<byte>, align: nat, ghost j: nat, h0: u32, t: u32, data: nat) returns (h: u32)
    requires 1 <= align <= 3 && data == 4 * j + (4 - align) && data + align <= |d|
    requires Straddles(d, t, align, j)
    ensures h == m.mix(h0, PackWord(d, 4 * j, 4))
  {
    JoinedRest(d, t, align, j, align);
    var last := Gather(d, data, align);
    var k := Joined(t, last, align);
    assert k == PackWord(d, 4 * j, 4);
    h := m.mix(h0, k);
  }

  /** Too few: what is held and what is left are the last bytes. */
  method LastBytes(m: Mixer, d: seq<byte>, align: nat, ghost j: nat, h0: u32, t: u32, data: nat, len: nat) returns (h: u32)
    requires 1 <= align <= 3 && data == 4 * j + (4 - align) && data + len == |d| && len < align
    requires Straddles(d, t, align, j)
    ensures h == Rest(m, h0, d, 4 * j)
  {
    JoinedRest(d, t, align, j, len);
    var last := Gather(d, data, len);
    var k := Joined(t, last, align);
    assert |d| - 4 * j == 4 - align + len;
    assert k == PackWord(d, 4 * j, |d| - 4 * j);
    h := m.scramble(Xor32(h0, k));
  }

  /** The seed combined with the length, which is taken modulo 2^32. */
  function Start(seed: u32, len: nat): u32 {
    Xor32(seed, len % TWO_32)
  }

  // ------------------------------------------------------------ what the mixing steps keep

  lemma InverseUndoes(h: nat, m: nat, inverse: nat, k: nat, w: nat)
    requires h < w && m * inverse == 1 + w * k && h * m >= 0
    ensures h * m % w * inverse % w == h
  {
    var q, t := h * m / w, h * m % w;
    DivMod(h * m, w);
    InverseProduct(h, m, inverse, k, w, q, t);
    Positive(t, inverse);
    QuotientUnique(t * inverse, w, k * h - q * inverse);
  }

  lemma InverseProduct(h: int, m: int, inverse: int, k: int, w: int, q: int, t: int)
    requires m * inverse == 1 + w * k && h * m == q * w + t
    ensures t * inverse == (k * h - q * inverse) * w + h
  {
    Swap(h, m, inverse);
    Distribute(q * w, t, inverse);
    Swap(q, w, inverse);
    Distribute(1, w * k, h);
    Swap(w, k, h);
    Swap(k, h, w);
    Distribute(k * h, q * inverse, w);
  }

  // Multiplying by M is undone by multiplying by its inverse modulo 2^32.
  lemma TimesUndone(h: u32)
    ensures Times(h) * 0xE59B_19BD % TWO_32 == h
  {
    InverseUndoes(h, M, 0xE59B_19BD, 0x525A_6746, TWO_32);
  }

  lemma TimesInjective(a: u32, b: u32)
    requires Times(a) == Times(b)
    ensures a == b
  {
    TimesUndone(a);
    TimesUndone(b);
  }

  lemma Shifts()
    ensures Pow2(24) == 0x100_0000 && Pow2(13) == 0x2000 && Pow2(15) == 0x8000
  {
    Pow2Byte();
    Pow2Step(8); Pow2Step(16);
    assert Pow2(16) == 2 * Pow2(15) && Pow2(15) == 4 * Pow2(13);
  }

  lemma MixKeepsHash(h1: u32, h2: u32, k: u32)
    requires Mix(h1, k) == Mix(h2, k)
    ensures h1 == h2
  {
    var k1 := Times(k);
    XorInjective(Times(h1), Times(h2), Times(Xor32(k1, k1 / 0x100_0000)));
    TimesInjective(h1, h2);
  }

  lemma MixKeepsWord(h: u32, k1: u32, k2: u32)
    requires Mix(h, k1) == Mix(h, k2)
    ensures k1 == k2
  {
    var a, b := Times(k1), Times(k2);
    var x, y := Xor32(a, a / 0x100_0000), Xor32(b, b / 0x100_0000);
    XorCommutes(Times(h), Times(x), 32);
    XorCommutes(Times(h), Times(y), 32);
    XorInjective(Times(x), Times(y), Times(h));
    TimesInjective(x, y);
    Shifts();
    XorShiftInjective(a, b, a / 0x100_0000, b / 0x100_0000, 24);
    TimesInjective(k1, k2);
  }

  lemma FinishInjective(a: u32, b: u32)
    requires Finish(a) == Finish(b)
    ensures a == b
  {
    var x, y := Xor32(a, a / 0x2000), Xor32(b, b / 0x2000);
    Shifts();
    XorShiftInjective(Times(x), Times(y), Times(x) / 0x8000, Times(y) / 0x8000, 15);
    TimesInjective(x, y);
    XorShiftInjective(a, b, a / 0x2000, b / 0x2000, 13);
  }

  /** No step loses anything: of what was there before and what is mixed in, the one and the result give the other. */
  ghost predicate Reversible(m: Mixer) {
    && (forall h1, h2, k :: m.mix(h1, k) == m.mix(h2, k) ==> h1 == h2)
    && (forall h, k1, k2 :: m.mix(h, k1) == m.mix(h, k2) ==> k1 == k2)
    && (forall a, b :: m.scramble(a) == m.scramble(b) ==> a == b)
    && (forall a, b :: m.finish(a) == m.finish(b) ==> a == b)
  }

  lemma MurmurIsReversible()
    ensures Reversible(MURMUR)
  {
    forall h1, h2, k | MURMUR.mix(h1, k) == MURMUR.mix(h2, k) ensures h1 == h2 {
      MixKeepsHash(h1, h2, k);
    }
    forall h, k1, k2 | MURMUR.mix(h, k1) == MURMUR.mix(h, k2) ensures k1 == k2 {
      MixKeepsWord(h, k1, k2);
    }
    forall a, b | MURMUR.scramble(a) == MURMUR.scramble(b) ensures a == b {
      TimesInjective(a, b);
    }
    forall a, b | MURMUR.finish(a) == MURMUR.finish(b) ensures a == b {
      FinishInjective(a, b);
    }
  }

  /** The bytes from i on, n of them, are the same. */
  ghost predicate SameAt(d1: seq<byte>, d2: seq<byte>, i: nat, n: nat) {
    i + n <= |d1| == |d2| && forall j :: i <= j < i + n ==> d1[j] == d2[j]
  }

  // Words are the same exactly if their bytes are.
  lemma {:induction false} PackDecides(d1: seq<byte>, d2: seq<byte>, i: nat, n: nat)
    requires i + n <= |d1| == |d2|
    ensures Pack(d1, i, n) == Pack(d2, i, n) <==> SameAt(d1, d2, i, n)
    decreases n
  {
    if n == 0 {
    } else {
      PackDecides(d1, d2, i + 1, n - 1);
    }
  }

  lemma MixDecides(m: Mixer, h1: u32, h2: u32, k1: u32, k2: u32)
    requires Reversible(m) && (h1 == h2) != (k1 == k2)
    ensures m.mix(h1, k1) != m.mix(h2, k2)
  {
  }

  lemma BodyStep(m: Mixer, h: u32, d1: seq<byte>, d2: seq<byte>, n: nat)
    requires Reversible(m) && n > 0 && 4 * n <= |d1| == |d2|
    requires (Body(m, h, d1, n - 1) == Body(m, h, d2, n - 1)) != SameAt(d1, d2, 4 * (n - 1), 4)
    ensures Body(m, h, d1, n) != Body(m, h, d2, n)
  {
    PackDecides(d1, d2, 4 * (n - 1), 4);
    MixDecides(m, Body(m, h, d1, n - 1), Body(m, h, d2, n - 1), PackWord(d1, 4 * (n - 1), 4), PackWord(d2, 4 * (n - 1), 4));
  }

  lemma SameWithin(d1: seq<byte>, d2: seq<byte>, i: nat, n: nat, j: nat, k: nat)
    requires SameAt(d1, d2, i, n) && i <= j && j + k <= i + n
    ensures SameAt(d1, d2, j, k)
  {
  }

  // Going forward over the same words keeps a difference; going over different ones from the same state makes one.
  lemma {:induction false} BodyDecides(m: Mixer, h: u32, d1: seq<byte>, d2: seq<byte>, j: nat, n: nat)
    requires Reversible(m) && j < n && 4 * n <= |d1| == |d2| && SameAt(d1, d2, 0, 4 * j) && !SameAt(d1, d2, 4 * j, 4)
    requires SameAt(d1, d2, 4 * j + 4, |d1| - (4 * j + 4))
    ensures Body(m, h, d1, n) != Body(m, h, d2, n)
    decreases n
  {
    if n == j + 1 {
      SameBody(m, h, d1, d2, j);
      BodyStep(m, h, d1, d2, j + 1);
    } else {
      BodyDecides(m, h, d1, d2, j, n - 1);
      SameWithin(d1, d2, 4 * j + 4, |d1| - (4 * j + 4), 4 * (n - 1), 4);
      BodyStep(m, h, d1, d2, n);
    }
  }

  lemma {:induction false} SameBody(m: Mixer, h: u32, d1: seq<byte>, d2: seq<byte>, n: nat)
    requires SameAt(d1, d2, 0, 4 * n)
    ensures Body(m, h, d1, n) == Body(m, h, d2, n)
    decreases n
  {
    if n == 0 {
    } else {
      SameBody(m, h, d1, d2, n - 1);
      PackDecides(d1, d2, 4 * (n - 1), 4);
    }
  }

  lemma RestDecides(m: Mixer, h1: u32, h2: u32, d1: seq<byte>, d2: seq<byte>, i: nat)
    requires Reversible(m) && i <= |d1| == |d2| < i + 4 && SameAt(d1, d2, i, |d1| - i) && h1 != h2
    ensures Rest(m, h1, d1, i) != Rest(m, h2, d2, i)
  {
    if i < |d1| {
      PackDecides(d1, d2, i, |d1| - i);
      var k := PackWord(d1, i, |d1| - i);
      if Xor32(h1, k) == Xor32(h2, k) {
        XorInjective(h1, h2, k);
      }
    }
  }

  // Strings of one length that differ in one word only never have the same hash.
  lemma OneWordDecides(m: Mixer, d1: seq<byte>, d2: seq<byte>, h0: u32, j: nat)
    requires Reversible(m) && 4 * j + 4 <= |d1| == |d2| && SameAt(d1, d2, 0, 4 * j) && !SameAt(d1, d2, 4 * j, 4)
    requires SameAt(d1, d2, 4 * j + 4, |d1| - (4 * j + 4))
    ensures Hash(m, d1, h0) != Hash(m, d2, h0)
  {
    var n := |d1| / 4;
    BodyDecides(m, h0, d1, d2, j, n);
    RestDecides(m, Body(m, h0, d1, n), Body(m, h0, d2, n), d1, d2, 4 * n);
  }

  // ------------------------------------------------------------ a known value

  lemma TimesIs(h: u32, q: nat, r: u32)
    requires 0x5bd1e995 * h == TWO_32 * q + r
    ensures Times(h) == r
  {
    assert h * M == q * TWO_32 + r;
    QuotientUnique(h * M, TWO_32, q);
  }

  lemma XorIs(a: u32, b: u32, r: u32, x: seq<Digit>, y: seq<Digit>, z: seq<Digit>)
    requires Spells(a, x) && Spells(b, y) && Spells(r, z) && DigitsXor(x, y, z)
    ensures Xor32(a, b) == r
  {
    HexXor(a, b, x, y, z);
  }

  lemma WordValue(k1: u32)
    requires k1 == 0x5BD1_E995
    ensures Times(Xor32(k1, k1 / 0x100_0000)) == 0x9A27_92E6
  {
    XorIs(k1, k1 / 0x100_0000, 0x5BD1_E9CE, [H5, HB, HD, H1, HE, H9, H9, H5],
          [H0, H0, H0, H0, H0, H0, H5, HB], [H5, HB, HD, H1, HE, H9, HC, HE]);
    TimesIs(Xor32(k1, k1 / 0x100_0000), 552527939, 0x9A27_92E6);
  }

  lemma MixedValue(a: u32, b: u32)
    requires a == 0x6F47_A654 && b == 0x9A27_92E6
    ensures Xor32(a, b) == 0xF560_34B2
  {
    XorIs(a, b, 0xF560_34B2, [H6, HF, H4, H7, HA, H6, H5, H4],
          [H9, HA, H2, H7, H9, H2, HE, H6], [HF, H5, H6, H0, H3, H4, HB, H2]);
  }

  lemma MixValue(h: u32, k: u32)
    requires h == 4 && k == 1
    ensures Mix(h, k) == 0xF560_34B2
  {
    TimesIs(k, 0, 0x5BD1_E995);
    TimesIs(h, 1, 0x6F47_A654);
    var k1 := Times(k);
    WordValue(k1);
    MixedValue(Times(h), Times(Xor32(k1, k1 / 0x100_0000)));
  }

  lemma RestXor(h: u32, k: u32)
    requires h == 0xF560_34B2 && k == 1
    ensures Xor32(h, k) == 0xF560_34B3
  {
    XorIs(h, k, 0xF560_34B3, [HF, H5, H6, H0, H3, H4, HB, H2],
          [H0, H0, H0, H0, H0, H0, H0, H1], [HF, H5, H6, H0, H3, H4, HB, H3]);
  }

  lemma RestValue(h: u32, k: u32)
    requires h == 0xF560_34B2 && k == 1
    ensures Times(Xor32(h, k)) == 0x0818_972F
  {
    RestXor(h, k);
    TimesIs(Xor32(h, k), 1476552234, 0x0818_972F);
  }

  lemma FirstShift(h: u32)
    requires h == 0x0818_972F
    ensures Times(Xor32(h, h / 0x2000)) == 0x22D5_8EC7
  {
    XorIs(h, h / 0x2000, 0x0818_D7EB, [H0, H8, H1, H8, H9, H7, H2, HF],
          [H0, H0, H0, H0, H4, H0, HC, H4], [H0, H8, H1, H8, HD, H7, HE, HB]);
    TimesIs(Xor32(h, h / 0x2000), 48724076, 0x22D5_8EC7);
  }

  lemma LastShift(h: u32)
    requires h == 0x22D5_8EC7
    ensures Xor32(h, h / 0x8000) == 0x22D5_CB6C
  {
    XorIs(h, h / 0x8000, 0x22D5_CB6C, [H2, H2, HD, H5, H8, HE, HC, H7],
          [H0, H0, H0, H0, H4, H5, HA, HB], [H2, H2, HD, H5, HC, HB, H6, HC]);
  }

  lemma FinishValue(h: u32)
    requires h == 0x0818_972F
    ensures Finish(h) == 0x22D5_CB6C
  {
    FirstShift(h);
    LastShift(Times(Xor32(h, h / 0x2000)));
  }

  lemma WordAndRest(m: Mixer, d: seq<byte>, h0: u32)
    requires |d| == 5
    ensures Hash(m, d, h0) == m.finish(m.scramble(Xor32(m.mix(h0, PackWord(d, 0, 4)), PackWord(d, 4, 1))))
  {
    HashIs(m, d, h0, 1);
    assert Body(m, h0, d, 0) == h0;
  }

  lemma FirstBytes(d: seq<byte>)
    requires |d| == 5 && d[0] == 1 && d[1] == d[2] == d[3] == 0 && d[4] == 1
    ensures Pack(d, 0, 4) == 1 && Pack(d, 4, 1) == 1
  {
    assert Pack(d, 2, 2) == d[2] as int + 256 * Pack(d, 3, 1);
    assert Pack(d, 1, 3) == d[1] as int + 256 * Pack(d, 2, 2);
  }

  lemma StartValue(seed: u32, len: u32)
    requires seed == 1 && len == 5
    ensures Start(seed, len) == 4
  {
    XorIs(seed, len, 4, [H0, H0, H0, H0, H0, H0, H0, H1],
          [H0, H0, H0, H0, H0, H0, H0, H5], [H0, H0, H0, H0, H0, H0, H0, H4]);
  }

  // A known value: five bytes, that is one word and a rest of one byte, with the seed 1.
  lemma KnownValue(d: seq<byte>, seed: u32)
    requires |d| == 5 && d[0] == 1 && d[1] == d[2] == d[3] == 0 && d[4] == 1 && seed == 1
    ensures Hash(MURMUR, d, Start(seed, |d|)) == 0x22D5_CB6C
  {
    var h0 := Start(seed, |d|);
    StartValue(seed, |d|);
    FirstBytes(d);
    WordAndRest(MURMUR, d, h0);
    var k, t := PackWord(d, 0, 4), PackWord(d, 4, 1);
    MixValue(h0, k);
    RestValue(Mix(h0, k), t);
    FinishValue(Times(Xor32(Mix(h0, k), t)));
  }

  /** All three functions as they are called: same bytes and seed, any address. */
  method AllThreeForms(d: seq<byte>, seed: u32, align: nat) returns (a: u32, b: u32, c: u32)
    requires align <= 3
    ensures a == b == c == Hash(MURMUR, d, Start(seed, |d|))
  {
    a := MurmurHash2(MURMUR, d, Start(seed, |d|));
    b := MurmurHashNeutral2(MURMUR, d, Start(seed, |d|));
    c := MurmurHashAligned2(MURMUR, d, align, Start(seed, |d|));
  }
}
