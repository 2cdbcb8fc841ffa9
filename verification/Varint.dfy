/**
 Variable-length integers, encoding/varint.h and encoding/varint.cpp: seven bits to a
 byte, low-order bits first, the high bit set on all bytes but the last.
 */
module Varint {
  import opened Options
  import opened Powers
  import opened Sequences
  import opened Words

  // ------------------------------------------------------------ the format

  function Encode(v: nat): (b: seq<byte>)
    ensures b != []
  {
    if v < 128 then [v] else [v % 128 + 128] + Encode(v / 128)
  }

  /** The number that at most `limit` bytes spell, and how many bytes it took. */
  function Parse(b: seq<byte>, limit: nat): Option<(nat, nat)>
    decreases limit
  {
    if b == [] || limit == 0 then None
    else if b[0] < 128 then Some((b[0] as int, 1))
    else
      match Parse(b[1..], limit - 1)
      case None => None
      case Some((v, n)) => Some((b[0] as int - 128 + 128 * v, n + 1))
  }

  lemma {:induction false} ParseEncoded(v: nat, rest: seq<byte>, limit: nat)
    requires |Encode(v)| <= limit
    ensures Parse(Encode(v) + rest, limit) == Some((v, |Encode(v)|))
  {
    if v < 128 {
    } else {
      ParseEncoded(v / 128, rest, limit - 1);
      var b := Encode(v) + rest;
      assert b[0] == v % 128 + 128 && b[1..] == Encode(v / 128) + rest;
    }
  }

  lemma {:induction false} ParseBounds(b: seq<byte>, limit: nat)
    ensures Parse(b, limit).Some? ==> 1 <= Parse(b, limit).value.1 <= |b| && Parse(b, limit).value.1 <= limit
  {
    if b == [] || limit == 0 || b[0] < 128 {
    } else {
      ParseBounds(b[1..], limit - 1);
    }
  }

  // A parsed number encodes to the very bytes it was parsed from exactly when they are not padded with a zero byte.
  lemma {:induction false} ParsedIsCanonical(b: seq<byte>, limit: nat)
    requires Parse(b, limit).Some?
    ensures var (v, n) := Parse(b, limit).value;
            1 <= n <= |b| && (Encode(v) == b[..n] <==> n == 1 || b[n - 1] != 0)
  {
    ParseBounds(b, limit);
    if b[0] < 128 {
    } else {
      var rest := b[1..];
      ParseBounds(rest, limit - 1);
      ParsedIsCanonical(rest, limit - 1);
      var (v, n) := Parse(rest, limit - 1).value;
      var w: nat := b[0] as int - 128 + 128 * v;
      assert b[..n + 1] == [b[0]] + rest[..n] && b[n] == rest[n - 1];
      assert w / 128 == v && w % 128 + 128 == b[0];
      if w >= 128 {
        assert Encode(w)[1..] == Encode(v) && b[..n + 1][1..] == rest[..n];
      } else {
        assert v == 0 && Encode(v) == [0];
        assert |Encode(w)| == 1;
      }
    }
  }

  /** The high bit is set on all bytes but the last. */
  ghost predicate Terminated(b: seq<byte>) {
    b != [] && b[|b| - 1] < 128 && forall i :: 0 <= i < |b| - 1 ==> b[i] >= 128
  }

  /** The number that the low seven bits of each byte spell, lowest first. */
  function GroupValue(b: seq<byte>): nat {
    if b == [] then 0 else b[0] as int % 128 + 128 * GroupValue(b[1..])
  }

  // An encoding is terminated by its last byte and spells its number.
  lemma {:induction false} EncodedSpells(v: nat)
    ensures Terminated(Encode(v)) && GroupValue(Encode(v)) == v
  {
    if v < 128 {
    } else {
      EncodedSpells(v / 128);
      var b := Encode(v);
      assert b[1..] == Encode(v / 128);
      assert forall i :: 1 <= i < |b| ==> b[i] == b[1..][i - 1];
    }
  }

  // Parsing takes the bytes up to the first one without the high bit, and returns what they spell.
  lemma {:induction false} ParsedSpells(b: seq<byte>, limit: nat, n: nat)
    requires n <= |b|
    ensures n <= limit && Terminated(b[..n]) <==> Parse(b, limit).Some? && Parse(b, limit).value.1 == n
    ensures n <= limit && Terminated(b[..n]) ==> Parse(b, limit) == Some((GroupValue(b[..n]), n))
  {
    ParseBounds(b, limit);
    if b == [] || limit == 0 || n == 0 {
    } else {
      var rest := b[1..];
      ParsedSpells(rest, limit - 1, n - 1);
      ParseBounds(rest, limit - 1);
      assert b[..n][1..] == rest[..n - 1];
      if n > 1 {
        TerminatedCons(b[..n]);
      }
    }
  }

  lemma TerminatedCons(b: seq<byte>)
    requires |b| > 1
    ensures Terminated(b) <==> b[0] >= 128 && Terminated(b[1..])
  {
    assert forall i :: 1 <= i < |b| ==> b[i] == b[1..][i - 1];
    if b[0] >= 128 && Terminated(b[1..]) {
      forall i | 0 <= i < |b| - 1 ensures b[i] >= 128 {
        if i > 0 {
          assert b[1..][i - 1] >= 128;
        }
      }
    } else if Terminated(b) {
      forall i | 0 <= i < |b[1..]| - 1 ensures b[1..][i] >= 128 {
        assert b[i + 1] >= 128;
      }
    }
  }

  /** A k-byte group holds seven bits to a byte. */
  lemma {:induction false} EncodedSize(v: nat, k: nat)
    requires k > 0
    ensures |Encode(v)| <= k <==> v < Pow2(7 * k)
  {
    if k == 1 {
      assert Pow2(7) == 128;
    } else {
      Pow2Seven(k - 1);
      if v >= 128 {
        EncodedSize(v / 128, k - 1);
      } else {
        Pow2Monotone(0, 7 * (k - 1));
      }
    }
  }

  lemma Pow2Seven(k: nat)
    ensures Pow2(7 * (k + 1)) == 128 * Pow2(7 * k)
  {
    assert Pow2(7) == 128;
    Pow2Add(7 * k, 7);
    assert 7 * (k + 1) == 7 * k + 7;
  }

  // ------------------------------------------------------------ the encoders

  /** `v | 128` as an unsigned char. */
  function Marked(v: u64): (b: byte) { Or(v, 128) % 256 }

  lemma ModFromHalves(z: nat, p: nat, h: nat, o: nat)
    requires p > 0 && z / 2 % p == h && z % 2 == o
    ensures z % (2 * p) == 2 * h + o
  {
    HalfOfMod(z, p);
  }

  lemma {:induction false} ZipMod(f: (bool, bool) -> bool, a: nat, b: nat, k: nat, n: nat)
    requires k <= n
    ensures Zip(f, a, b, n) % Pow2(k) == Zip(f, a, b, k)
  {
    if k == 0 {
    } else {
      ZipMod(f, a / 2, b / 2, k - 1, n - 1);
      var o := One(f(a % 2 == 1, b % 2 == 1));
      assert Zip(f, a, b, n) / 2 == Zip(f, a / 2, b / 2, n - 1) && Zip(f, a, b, n) % 2 == o;
      ModFromHalves(Zip(f, a, b, n), Pow2(k - 1), Zip(f, a / 2, b / 2, k - 1), o);
    }
  }

  lemma {:induction false} ZipLow(f: (bool, bool) -> bool, a: nat, k: nat)
    requires f(false, true) && f(true, true) && !f(false, false) && f(true, false)
    ensures a % Pow2(k) >= 0 && Zip(f, a, Pow2(k), k + 1) == a % Pow2(k) + Pow2(k)
  {
    DivMod(a, Pow2(k));
    if k == 0 {
    } else {
      ZipLow(f, a / 2, k - 1);
      HalfOfMod(a, Pow2(k - 1));
    }
  }

  lemma MarkedIs(v: u64)
    ensures Marked(v) == v % 128 + 128
  {
    var f := (x: bool, y: bool) => x || y;
    assert Pow2(7) == 128;
    Pow2Byte();
    ZipMod(f, v, 128, 8, 64);
    ZipLow(f, v, 7);
  }

  method UnsafeEncode64(value: u64) returns (b: seq<byte>)
    ensures b == Encode(value)
  {
    var v := value;
    b := [];
    while v >= 128
      invariant b + Encode(v) == Encode(value)
    {
      Reassociate(b, [v % 128 + 128], Encode(v / 128));
      b := b + [v % 128 + 128];
      v := v / 128;
    }
    b := b + [v];
  }

  lemma TwoBytes(v: u32)
    requires 0x80 <= v < 0x4000
    ensures Encode(v) == [Marked(v), v / 0x80]
  {
    MarkedIs(v);
    assert Encode(v / 0x80) == [v / 0x80];
  }

  lemma ThreeBytes(v: u32)
    requires 0x4000 <= v < 0x20_0000
    ensures Encode(v) == [Marked(v), Marked(v / 0x80), v / 0x4000]
  {
    MarkedIs(v);
    TwoBytes(v / 0x80);
    assert v / 0x80 / 0x80 == v / 0x4000;
  }

  lemma FourBytes(v: u32)
    requires 0x20_0000 <= v < 0x1000_0000
    ensures Encode(v) == [Marked(v), Marked(v / 0x80), Marked(v / 0x4000), v / 0x20_0000]
  {
    MarkedIs(v);
    ThreeBytes(v / 0x80);
    assert v / 0x80 / 0x80 == v / 0x4000 && v / 0x80 / 0x4000 == v / 0x20_0000;
  }

  lemma FiveBytes(v: u32)
    requires 0x1000_0000 <= v
    ensures Encode(v) == [Marked(v), Marked(v / 0x80), Marked(v / 0x4000), Marked(v / 0x20_0000), v / 0x1000_0000]
  {
    MarkedIs(v);
    FourBytes(v / 0x80);
    assert v / 0x80 / 0x80 == v / 0x4000 && v / 0x80 / 0x4000 == v / 0x20_0000;
    assert v / 0x80 / 0x20_0000 == v / 0x1000_0000;
  }

  method UnsafeEncode32(v: u32) returns (b: seq<byte>)
    ensures b == Encode(v)
  {
    if v < 0x80 {
      b := [v];
    } else if v < 0x4000 {
      TwoBytes(v);
      b := [Marked(v), v / 0x80];
    } else if v < 0x20_0000 {
      ThreeBytes(v);
      b := [Marked(v), Marked(v / 0x80), v / 0x4000];
    } else if v < 0x1000_0000 {
      FourBytes(v);
      b := [Marked(v), Marked(v / 0x80), Marked(v / 0x4000), v / 0x20_0000];
    } else {
      FiveBytes(v);
      b := [Marked(v), Marked(v / 0x80), Marked(v / 0x4000), Marked(v / 0x20_0000), v / 0x1000_0000];
    }
  }

  method EncodedLength(value: u64) returns (len: nat)
    ensures len == |Encode(value)| <= 10
  {
    var v := value;
    len := 1;
    while v >= 128
      invariant len + |Encode(v)| == |Encode(value)| + 1
    {
      v := v / 128;
      len := len + 1;
    }
    Pow2Of64();
    Pow2Monotone(64, 70);
    EncodedSize(value, 10);
  }

  // ------------------------------------------------------------ the decoders

  /** `result | (x << shift)` in a word of `width` bits. */
  function OrShifted(result: nat, x: nat, shift: nat, width: nat): nat {
    Positive(x, Pow2(shift));
    DivMod(x * Pow2(shift), Pow2(width));
    Zip((a, b) => a || b, result, x * Pow2(shift) % Pow2(width), width)
  }

  // Shifting drops what does not fit.
  lemma ShiftedMod(x: nat, p: nat, m: nat)
    requires p > 0 && m > 0
    ensures m * p > 0 && x * p >= 0 && x % m >= 0 && x * p % (m * p) == x % m * p
    ensures x * p == x / m * (m * p) + x % m * p && x % m * p + p <= m * p
  {
    MulLe(1, m, p);
    Positive(x, p);
    DivMod(x, m);
    Distribute(x / m * m, x % m, p);
    Swap(x / m, m, p);
    MulLe(x % m + 1, m, p);
    Distribute(x % m, 1, p);
    Positive(x % m, p);
    QuotientUnique(x * p, m * p, x / m);
  }

  lemma AddedMod(result: nat, x: nat, p: nat, m: nat, w: nat) returns (high: nat)
    requires result < p && m > 0 && w == m * p
    ensures w > 0 && x * p >= 0 && high * p >= 0
    ensures x * p % w == high * p < w && (result + x * p) % w == result + high * p
  {
    ShiftedMod(x, p, m);
    high := x % m;
    Positive(high, p);
    QuotientUnique(result + x * p, w, x / m);
  }

  lemma OrDisjoint(low: nat, high: nat, shift: nat, width: nat, shifted: nat)
    requires shift <= width && low < Pow2(shift) && shifted == high * Pow2(shift) && shifted < Pow2(width)
    ensures Zip((a, b) => a || b, low, shifted, width) == low + shifted
  {
    ZipDisjoint((a, b) => a || b, low, high, shift, width);
  }

  lemma OrShiftedSplits(result: nat, x: nat, shift: nat, width: nat, shifted: nat, high: nat)
    requires shift <= width && result < Pow2(shift) && shifted == x * Pow2(shift)
    requires shifted % Pow2(width) == high * Pow2(shift)
    ensures OrShifted(result, x, shift, width) == result + shifted % Pow2(width)
  {
    DivMod(shifted, Pow2(width));
    OrDisjoint(result, high, shift, width, shifted % Pow2(width));
  }

  lemma ShiftedPower(result: nat, x: nat, shift: nat, width: nat) returns (shifted: nat, high: nat)
    requires shift <= width && result < Pow2(shift)
    ensures shifted == x * Pow2(shift) && shifted % Pow2(width) == high * Pow2(shift)
    ensures (result + shifted) % Pow2(width) == result + shifted % Pow2(width)
  {
    var m := Pow2(width - shift);
    Pow2Add(width - shift, shift);
    high := AddedMod(result, x, Pow2(shift), m, Pow2(width));
    shifted := x * Pow2(shift);
  }

  lemma OrShiftedAdds(result: nat, x: nat, shift: nat, width: nat)
    requires shift <= width && result < Pow2(shift)
    ensures result + x * Pow2(shift) >= 0
    ensures OrShifted(result, x, shift, width) == (result + x * Pow2(shift)) % Pow2(width)
  {
    var shifted, high := ShiftedPower(result, x, shift, width);
    OrShiftedSplits(result, x, shift, width, shifted, high);
  }

  function Wrapped(p: Option<(nat, nat)>, width: nat): Option<(nat, nat)> {
    match p
    case None => None
    case Some((v, n)) => DivMod(v, Pow2(width)); Some((v % Pow2(width), n))
  }

  /** What is parsed after i bytes that spell acc so far. */
  ghost function Lifted(p: Option<(nat, nat)>, acc: nat, i: nat): Option<(nat, nat)> {
    match p
    case None => None
    case Some((v, n)) => Positive(v, Pow2(7 * i)); Some((acc + v * Pow2(7 * i), n + i))
  }

  lemma LiftOne(b: seq<byte>, limit: nat, acc: nat, i: nat, next: nat)
    requires b != [] && limit > 0 && b[0] >= 128 && next == acc + (b[0] as int - 128) * Pow2(7 * i)
    ensures Lifted(Parse(b, limit), acc, i) == Lifted(Parse(b[1..], limit - 1), next, i + 1)
  {
    match Parse(b[1..], limit - 1)
    case None =>
    case Some((v, n)) =>
      Pow2Seven(i);
      Distribute(b[0] as int - 128, 128 * v, Pow2(7 * i));
      Swap(v, 128, Pow2(7 * i));
  }

  lemma GroupFits(acc: nat, x: nat, i: nat)
    requires acc < Pow2(7 * i) && x < 128
    ensures x * Pow2(7 * i) >= 0 && acc + x * Pow2(7 * i) < Pow2(7 * (i + 1))
  {
    Pow2Seven(i);
    Positive(x, Pow2(7 * i));
    MulLe(x + 1, 128, Pow2(7 * i));
    Distribute(x, 1, Pow2(7 * i));
  }

  lemma NoWrap(acc: nat, i: nat, width: nat)
    requires acc < Pow2(7 * i) && 7 * i <= width
    ensures acc % Pow2(width) == acc
  {
    Pow2Monotone(7 * i, width);
    QuotientUnique(acc, Pow2(width), 0);
  }

  /** The decoder has read i continuation bytes, which spell acc. */
  ghost predicate Decoding(b: seq<byte>, rounds: nat, i: nat, acc: nat) {
    && i <= rounds && i <= |b| && acc < Pow2(7 * i)
    && Parse(b, rounds) == Lifted(Parse(b[i..], rounds - i), acc, i)
  }

  lemma DecodingBegins(b: seq<byte>, rounds: nat)
    ensures Decoding(b, rounds, 0, 0)
  {
    assert b[0..] == b;
  }

  lemma DecodingGoesOn(b: seq<byte>, rounds: nat, i: nat, acc: nat, next: nat)
    requires Decoding(b, rounds, i, acc) && i < rounds && i < |b| && b[i] >= 128
    requires next == acc + (b[i] as int - 128) * Pow2(7 * i)
    ensures Decoding(b, rounds, i + 1, next)
  {
    assert b[i..][0] == b[i] && b[i..][1..] == b[i + 1..];
    LiftOne(b[i..], rounds - i, acc, i, next);
    GroupFits(acc, b[i] as int - 128, i);
  }

  lemma DecodingEnds(b: seq<byte>, rounds: nat, i: nat, acc: nat)
    requires Decoding(b, rounds, i, acc)
    ensures i == rounds || i == |b| ==> Parse(b, rounds) == None
    ensures i < rounds && i < |b| && b[i] < 128 ==>
              b[i] as int * Pow2(7 * i) >= 0 && Parse(b, rounds) == Some((acc + b[i] as int * Pow2(7 * i), i + 1))
  {
    if i < rounds && i < |b| {
      assert b[i..][0] == b[i];
      Positive(b[i] as int, Pow2(7 * i));
    }
  }

  lemma OneMoreByte(b: seq<byte>, rounds: nat, width: nat, i: nat, acc: nat) returns (next: nat)
    requires Decoding(b, rounds, i, acc) && i < rounds && i < |b| && b[i] >= 128 && 7 * (rounds - 1) <= width
    ensures Decoding(b, rounds, i + 1, next)
    ensures i + 1 < rounds ==> OrShifted(acc, b[i] as int - 128, 7 * i, width) == next
  {
    var x := b[i] as int - 128;
    OrShiftedAdds(acc, x, 7 * i, width);
    next := acc + x * Pow2(7 * i);
    DecodingGoesOn(b, rounds, i, acc, next);
    if i + 1 < rounds {
      NoWrap(next, i + 1, width);
    }
  }

  lemma LastByte(b: seq<byte>, rounds: nat, width: nat, i: nat, acc: nat)
    requires Decoding(b, rounds, i, acc) && i < rounds && i < |b| && b[i] < 128 && 7 * (rounds - 1) <= width
    ensures Wrapped(Parse(b, rounds), width) == Some((OrShifted(acc, b[i] as int, 7 * i, width), i + 1))
  {
    DecodingEnds(b, rounds, i, acc);
    OrShiftedAdds(acc, b[i] as int, 7 * i, width);
  }

  /** Decode32Fallback (32 bits, 5 rounds) and Decode64 (64 bits, 10 rounds). */
  method Decode(b: seq<byte>, width: nat, rounds: nat) returns (r: Option<(nat, nat)>)
    requires rounds > 0 && 7 * (rounds - 1) <= width
    ensures r == Wrapped(Parse(b, rounds), width)
  {
    var result: nat := 0;
    ghost var acc: nat := 0;
    var i: nat := 0;
    DecodingBegins(b, rounds);
    while i < rounds && i < |b|
      invariant Decoding(b, rounds, i, acc) && (i < rounds ==> result == acc)
    {
      if b[i] >= 128 {
        result := OrShifted(result, b[i] as int - 128, 7 * i, width);
        acc := OneMoreByte(b, rounds, width, i, acc);
        i := i + 1;
      } else {
        LastByte(b, rounds, width, i, acc);
        result := OrShifted(result, b[i] as int, 7 * i, width);
        return Some((result, i + 1));
      }
    }
    DecodingEnds(b, rounds, i, acc);
    r := None;
  }

  // ------------------------------------------------------------ reading numbers

  /** Decode32 with its one-byte fast path. */
  method Decode32(b: seq<byte>) returns (r: Option<(nat, nat)>)
    ensures r == Wrapped(Parse(b, 5), 32)
  {
    if b != [] && b[0] < 128 {
      Pow2Constants();
      return Some((b[0] as int, 1));
    }
    r := Decode(b, 32, 5);
  }

  method Decode64(b: seq<byte>) returns (r: Option<(nat, nat)>)
    ensures r == Wrapped(Parse(b, 10), 64)
  {
    r := Decode(b, 64, 10);
  }

  lemma RoundTrip32(v: u32, rest: seq<byte>)
    ensures |Encode(v)| <= 5 && Wrapped(Parse(Encode(v) + rest, 5), 32) == Some((v, |Encode(v)|))
  {
    Pow2Constants();
    Pow2Monotone(32, 35);
    EncodedSize(v, 5);
    ParseEncoded(v, rest, 5);
  }

  lemma RoundTrip64(v: u64, rest: seq<byte>)
    ensures |Encode(v)| <= 10 && Wrapped(Parse(Encode(v) + rest, 10), 64) == Some((v, |Encode(v)|))
  {
    Pow2Of64();
    Pow2Monotone(64, 70);
    EncodedSize(v, 10);
    ParseEncoded(v, rest, 10);
  }

  lemma EncodedParses(b: seq<byte>, n: nat, w: nat, rounds: nat)
    requires n <= |b| && n <= rounds
    ensures Encode(w) == b[..n] ==> Parse(b, rounds) == Some((w, n))
  {
    if Encode(w) == b[..n] {
      assert b[..n] + b[n..] == b;
      ParseEncoded(w, b[n..], rounds);
    }
  }

  // What a decoder returns encodes to the very bytes it was decoded from exactly when they are not padded with a
  // zero byte and spell a number that fits in the word.
  lemma DecodedIsCanonical(b: seq<byte>, width: nat, rounds: nat)
    requires Parse(b, rounds).Some?
    ensures Wrapped(Parse(b, rounds), width).Some?
    ensures var (v, n) := Parse(b, rounds).value;
            var w := Wrapped(Parse(b, rounds), width).value.0;
            1 <= n <= |b| && (Encode(w) == b[..n] <==> (n == 1 || b[n - 1] != 0) && v < Pow2(width))
  {
    ParsedIsCanonical(b, rounds);
    ParseBounds(b, rounds);
    var (v, n) := Parse(b, rounds).value;
    var w := Wrapped(Parse(b, rounds), width).value.0;
    EncodedParses(b, n, w, rounds);
    WrapsWhenTooLarge(v, width);
  }

  lemma WrapsWhenTooLarge(v: nat, width: nat)
    ensures 0 <= v % Pow2(width) && (v % Pow2(width) == v <==> v < Pow2(width))
  {
    DivMod(v, Pow2(width));
    if v < Pow2(width) {
      QuotientUnique(v, Pow2(width), 0);
    }
  }

  // The last byte holds the leading bits of the number.
  lemma {:induction false} LeadingByte(b: seq<byte>, limit: nat)
    requires Parse(b, limit).Some?
    ensures var (v, n) := Parse(b, limit).value;
            && 1 <= n <= |b| && n <= limit && b[n - 1] < 128
            && b[n - 1] as int * Pow2(7 * (n - 1)) <= v < (b[n - 1] as int + 1) * Pow2(7 * (n - 1))
  {
    ParseBounds(b, limit);
    if b[0] < 128 {
      assert Pow2(7 * 0) == 1;
    } else {
      LeadingByte(b[1..], limit - 1);
      var (v, n) := Parse(b[1..], limit - 1).value;
      Pow2Seven(n - 1);
      LeadingStep(b[n] as int, v, Pow2(7 * (n - 1)), b[0] as int - 128);
    }
  }

  lemma LeadingStep(top: nat, v: nat, p: nat, low: nat)
    requires top * p <= v < (top + 1) * p && low < 128
    ensures top * (128 * p) <= low + 128 * v < (top + 1) * (128 * p)
  {
    Swap(top, 128, p);
    Swap(top + 1, 128, p);
  }

  lemma FitsBelow(v: nat, top: nat, p: nat, k: nat)
    requires p > 0 && top * p <= v < (top + 1) * p
    ensures v < k * p <==> top < k
  {
    if top < k {
      MulLe(top + 1, k, p);
    } else {
      MulLe(k, top, p);
    }
  }

  lemma BelowGroups(v: nat, top: nat, n: nat, width: nat)
    requires n > 0 && top < 128 && v < (top + 1) * Pow2(7 * (n - 1)) && 7 * n <= width
    ensures v < Pow2(width)
  {
    MulLe(top + 1, 128, Pow2(7 * (n - 1)));
    Pow2Seven(n - 1);
    Pow2Monotone(7 * n, width);
  }

  // In a word of 7 * (rounds - 1) + spare bits, the number fits unless a byte of the last round has more bits.
  lemma LastRoundFits(b: seq<byte>, width: nat, rounds: nat, spare: nat)
    requires Parse(b, rounds).Some? && rounds > 0 && width == 7 * (rounds - 1) + spare
    ensures var (v, n) := Parse(b, rounds).value;
            1 <= n <= |b| && (v < Pow2(width) <==> (n == rounds ==> b[n - 1] as int < Pow2(spare)))
  {
    var (v, n) := Parse(b, rounds).value;
    LeadingByte(b, rounds);
    if n == rounds {
      FitsInWord(v, b[n - 1] as int, 7 * (n - 1), spare, width);
    } else {
      BelowGroups(v, b[n - 1] as int, n, width);
    }
  }

  lemma FitsInWord(v: nat, top: nat, shift: nat, spare: nat, width: nat)
    requires top * Pow2(shift) <= v < (top + 1) * Pow2(shift) && width == spare + shift
    ensures v < Pow2(width) <==> top < Pow2(spare)
  {
    Pow2Add(spare, shift);
    FitsBelow(v, top, Pow2(shift), Pow2(spare));
  }

  lemma DecodedEncodesBack(b: seq<byte>, width: nat, rounds: nat, spare: nat)
    requires Parse(b, rounds).Some? && rounds > 0 && width == 7 * (rounds - 1) + spare
    ensures Wrapped(Parse(b, rounds), width).Some?
    ensures var (w, n) := Wrapped(Parse(b, rounds), width).value;
            && 1 <= n <= |b|
            && (Encode(w) == b[..n] <==> (n == 1 || b[n - 1] != 0) && (n == rounds ==> b[n - 1] as int < Pow2(spare)))
  {
    DecodedIsCanonical(b, width, rounds);
    LastRoundFits(b, width, rounds, spare);
  }

  // So the decoders' values encode back exactly when, besides, a fifth byte is below 16 or a tenth byte below 2.
  lemma Decoded32IsCanonical(b: seq<byte>)
    requires Parse(b, 5).Some?
    ensures Wrapped(Parse(b, 5), 32).Some?
    ensures var (w, n) := Wrapped(Parse(b, 5), 32).value;
            1 <= n <= |b| && (Encode(w) == b[..n] <==> (n == 1 || b[n - 1] != 0) && (n == 5 ==> b[n - 1] < 16))
  {
    DecodedEncodesBack(b, 32, 5, 4);
    assert Pow2(4) == 16;
  }

  lemma Decoded64IsCanonical(b: seq<byte>)
    requires Parse(b, 10).Some?
    ensures Wrapped(Parse(b, 10), 64).Some?
    ensures var (w, n) := Wrapped(Parse(b, 10), 64).value;
            1 <= n <= |b| && (Encode(w) == b[..n] <==> (n == 1 || b[n - 1] != 0) && (n == 10 ==> b[n - 1] < 2))
  {
    DecodedEncodesBack(b, 64, 10, 1);
    assert Pow2(1) == 2;
  }

  /** n bytes 255 and then one that ends the number. */
  function Spilling(n: nat, last: byte): (b: seq<byte>)
    ensures |b| == n + 1 && b[n] == last
  {
    if n == 0 then [last] else [255] + Spilling(n - 1, last)
  }

  lemma {:induction false} SpillingParses(n: nat, last: byte, limit: nat)
    requires last < 128 && n < limit
    ensures Parse(Spilling(n, last), limit).Some? && Parse(Spilling(n, last), limit).value.1 == n + 1
  {
    if n == 0 {
    } else {
      SpillingParses(n - 1, last, limit - 1);
      assert Spilling(n, last)[1..] == Spilling(n - 1, last);
    }
  }

  // Two inputs without padding that do not encode back: their last bytes spill over the word.
  lemma SpilledBitsAreLost()
    ensures var b: seq<byte> := [255, 255, 255, 255, 127];
            && Parse(b, 5).Some? && Wrapped(Parse(b, 5), 32).Some?
            && Encode(Wrapped(Parse(b, 5), 32).value.0) != b
    ensures var b: seq<byte> := [255, 255, 255, 255, 255, 255, 255, 255, 255, 127];
            && Parse(b, 10).Some? && Wrapped(Parse(b, 10), 64).Some?
            && Encode(Wrapped(Parse(b, 10), 64).value.0) != b
  {
    var b: seq<byte> := [255, 255, 255, 255, 127];
    SpillingParses(4, 127, 5);
    assert Spilling(4, 127) == b;
    Decoded32IsCanonical(b);
    assert b[..5] == b;
    var c: seq<byte> := [255, 255, 255, 255, 255, 255, 255, 255, 255, 127];
    SpillingParses(9, 127, 10);
    assert Spilling(9, 127) == c;
    Decoded64IsCanonical(c);
    assert c[..10] == c;
  }

  // ------------------------------------------------------------ length-prefixed strings

  /** The length is passed on as a 32-bit number. */
  function LengthPrefixed(x: seq<byte>): seq<byte> { Encode(|x| % TWO_32) + x }

  method PutLengthPrefixed(dst: seq<byte>, x: seq<byte>) returns (r: seq<byte>)
    ensures r == dst + LengthPrefixed(x)
  {
    var length := UnsafeEncode32(|x| % TWO_32);
    r := dst + length;
    r := r + x;
  }

  /** The string a buffer starts with, and the rest of the buffer. */
  function ReadString(b: seq<byte>): Option<(seq<byte>, seq<byte>)> {
    match Wrapped(Parse(b, 5), 32)
    case None => None
    case Some((len, n)) =>
      ParseBounds(b, 5);
      if len > |b| - n then None else Some((b[n..n + len], b[n + len..]))
  }

  lemma SliceTwice(b: seq<byte>, n: nat, len: nat)
    requires n + len <= |b|
    ensures b[n..][..len] == b[n..n + len] && b[n..][len..] == b[n + len..]
  {
  }

  /** The input after a length, or all of it if no length can be read. */
  function WithoutLength(input: seq<byte>): seq<byte> {
    ParseBounds(input, 5);
    if Parse(input, 5).None? then input else input[Parse(input, 5).value.1..]
  }

  /** On failure the input is left as it was, or without the length if that could be read. */
  method GetLengthPrefixed(input: seq<byte>) returns (r: Option<seq<byte>>, rest: seq<byte>)
    ensures ReadString(input).None? <==> r.None?
    ensures r.Some? ==> ReadString(input) == Some((r.value, rest))
    ensures r.None? ==> rest == WithoutLength(input)
  {
    ParseBounds(input, 5);
    var length := Decode32(input);
    match length
    case None =>
      r, rest := None, input;
    case Some((len, n)) =>
      rest := input[n..];
      if |rest| >= len {
        SliceTwice(input, n, len);
        r, rest := Some(rest[..len]), rest[len..];
      } else {
        r := None;
      }
  }

  // A string reads back cut to its length modulo 2^32, so whole exactly when it is shorter than that.
  lemma StringRoundTrip(x: seq<byte>, rest: seq<byte>)
    ensures var k := |x| % TWO_32;
            ReadString(LengthPrefixed(x) + rest) == Some((x[..k], x[k..] + rest))
    ensures ReadString(LengthPrefixed(x) + rest) == Some((x, rest)) <==> |x| < TWO_32
  {
    var k := |x| % TWO_32;
    var head := Encode(k);
    var n := |head|;
    var b := LengthPrefixed(x) + rest;
    Reassociate(head, x, rest);
    RoundTrip32(k, x + rest);
    SliceAfter(head, x, rest, k);
    assert k == |x| <==> |x| < TWO_32;
  }

  // A string of 2^32 bytes reads back as the empty string, and its bytes as what follows.
  lemma LongStringIsCut(x: seq<byte>)
    requires |x| == TWO_32
    ensures ReadString(LengthPrefixed(x)) == Some(([], x))
  {
    StringRoundTrip(x, []);
    assert LengthPrefixed(x) + [] == LengthPrefixed(x) && x[0..] + [] == x;
  }

  lemma SliceAfter(head: seq<byte>, x: seq<byte>, rest: seq<byte>, k: nat)
    requires k <= |x|
    ensures var b, n := head + x + rest, |head|;
            b[n..n + k] == x[..k] && b[n + k..] == x[k..] + rest
  {
  }

  function WriteAll(list: seq<seq<byte>>): seq<byte> {
    if list == [] then [] else LengthPrefixed(list[0]) + WriteAll(list[1..])
  }

  /** The strings a buffer holds, up to the first that cannot be read, and what is left then. */
  function ReadAll(b: seq<byte>): (seq<seq<byte>>, seq<byte>)
    decreases |b|
  {
    match ReadString(b)
    case None => ([], b)
    case Some((x, rest)) =>
      ParseBounds(b, 5);
      var (more, left) := ReadAll(rest);
      ([x] + more, left)
  }

  predicate AllShort(list: seq<seq<byte>>) {
    forall i :: 0 <= i < |list| ==> |list[i]| < TWO_32
  }

  lemma AllShortCons(x: seq<byte>, more: seq<seq<byte>>)
    ensures AllShort([x] + more) <==> |x| < TWO_32 && AllShort(more)
  {
    var list := [x] + more;
    assert list[0] == x && forall i :: 0 <= i < |more| ==> list[i + 1] == more[i];
  }

  lemma ReadAllCons(b: seq<byte>, x: seq<byte>, rest: seq<byte>)
    requires ReadString(b) == Some((x, rest))
    ensures ReadAll(b) == ([x] + ReadAll(rest).0, ReadAll(rest).1)
  {
  }

  // A list of strings, written one after the other, parses back exactly when each is shorter than 2^32 bytes.
  lemma {:induction false} ListRoundTrip(list: seq<seq<byte>>)
    ensures ReadAll(WriteAll(list)) == (list, []) <==> AllShort(list)
  {
    if list == [] {
      assert ReadAll([]) == ([], []);
    } else {
      var x, more := list[0], list[1..];
      var k := |x| % TWO_32;
      assert [x] + more == list;
      AllShortCons(x, more);
      StringRoundTrip(x, WriteAll(more));
      if |x| < TWO_32 {
        ReadAllCons(WriteAll(list), x, WriteAll(more));
        ListRoundTrip(more);
        assert ([x] + ReadAll(WriteAll(more)).0)[1..] == ReadAll(WriteAll(more)).0;
      } else {
        ReadAllCons(WriteAll(list), x[..k], x[k..] + WriteAll(more));
        assert ReadAll(WriteAll(list)).0[0] == x[..k] != x;
      }
    }
  }
}
