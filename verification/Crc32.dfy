/**
 The table-driven CRC-32 of hash/crc32.cpp against the definition it speeds up: a
 32-bit register that takes the message one bit at a time, low-order bit of each
 byte first, and reduces by the reversed polynomial.

 The number of bits of a byte is a parameter n of most members, fixed by
 Pow2(n) == 256 where it matters and 8 in the checksum itself: the arguments go by
 induction over the bits and use nothing else about the number 8.
 */
module Crc32 {
  import opened Hexadecimal
  import opened Powers
  import opened Sequences
  import opened Words

  const POLYNOMIAL: u32 := 0xEDB8_8320
  const ONES: u32 := 0xFFFF_FFFF

  // ------------------------------------------------------------ the register, bit by bit

  /** The register after one message bit. */
  function BitStep(c: u32, bit: bool): u32 {
    if (c % 2 == 1) != bit then Xor32(POLYNOMIAL, c / 2) else c / 2
  }

  function Feed(c: u32, bits: seq<bool>): u32
    decreases |bits|
  {
    if bits == [] then c else Feed(BitStep(c, bits[0]), bits[1..])
  }

  /** The n low-order bits of u, lowest first. */
  function Bits(u: nat, n: nat): (b: seq<bool>)
    ensures |b| == n
  {
    if n == 0 then [] else [u % 2 == 1] + Bits(u / 2, n - 1)
  }

  /** The n low-order bits of every byte, lowest first. */
  function MessageBits(data: seq<byte>, n: nat): seq<bool> {
    if data == [] then [] else Bits(data[0], n) + MessageBits(data[1..], n)
  }

  function Register(data: seq<byte>, n: nat): u32 {
    Feed(Xor32(0, ONES), MessageBits(data, n))
  }

  /** The checksum of a message (section 8 of RFC 1952). */
  function Checksum(data: seq<byte>): u32 {
    Xor32(Register(data, 8), ONES)
  }

  lemma {:induction false} FeedAppend(c: u32, a: seq<bool>, b: seq<bool>)
    ensures Feed(c, a + b) == Feed(Feed(c, a), b)
    decreases |a|
  {
    if a == [] {
      assert a + b == b;
    } else {
      var rest := a[1..];
      FeedAppend(BitStep(c, a[0]), rest, b);
      assert (a + b)[1..] == rest + b && (a + b)[0] == a[0];
    }
  }

  lemma {:induction false} MessageBitsAppend(a: seq<byte>, b: seq<byte>, n: nat)
    ensures MessageBits(a + b, n) == MessageBits(a, n) + MessageBits(b, n)
  {
    if a == [] {
      assert a + b == b;
    } else {
      var rest := a[1..];
      MessageBitsAppend(rest, b, n);
      assert (a + b)[1..] == rest + b && (a + b)[0] == a[0];
      Reassociate(Bits(a[0], n), MessageBits(rest, n), MessageBits(b, n));
    }
  }

  lemma RegisterSnoc(data: seq<byte>, u: byte, n: nat)
    ensures Register(data + [u], n) == Feed(Register(data, n), Bits(u, n))
  {
    MessageBitsAppend(data, [u], n);
    assert MessageBits([u], n) == Bits(u, n) + MessageBits([], n) == Bits(u, n);
    FeedAppend(Xor32(0, ONES), MessageBits(data, n), Bits(u, n));
  }

  // ------------------------------------------------------------ one step of the table's inner loop

  function Step(c: u32): u32 {
    if c % 2 == 1 then Xor32(POLYNOMIAL, c / 2) else c / 2
  }

  function Steps(c: u32, n: nat): u32
    decreases n
  {
    if n == 0 then c else Steps(Step(c), n - 1)
  }

  lemma StepBit(c: u32, i: nat)
    requires i < 32
    ensures Bit(Step(c), i) == (Bit(c, i + 1) != (Bit(c, 0) && Bit(POLYNOMIAL, i)))
  {
    if c % 2 == 1 {
      Xor32Bit(POLYNOMIAL, c / 2, i);
    }
  }

  lemma HighBit(c: u32)
    ensures !Bit(c, 32)
  {
    Pow2Constants();
    HighBits(c, 32, 32);
  }

  lemma XorBitAt(a: u32, b: u32, i: nat)
    requires i <= 32
    ensures Bit(Xor32(a, b), i) == (Bit(a, i) != Bit(b, i))
  {
    if i < 32 {
      Xor32Bit(a, b, i);
    } else {
      HighBit(a); HighBit(b); HighBit(Xor32(a, b));
    }
  }

  // The step is linear.
  lemma StepXor(a: u32, b: u32)
    ensures Step(Xor32(a, b)) == Xor32(Step(a), Step(b))
  {
    forall i: nat | i < 32 ensures Bit(Step(Xor32(a, b)), i) == Bit(Xor32(Step(a), Step(b)), i) {
      StepBit(Xor32(a, b), i); StepBit(a, i); StepBit(b, i);
      XorBitAt(a, b, i + 1); XorBitAt(a, b, 0);
      Xor32Bit(Step(a), Step(b), i);
    }
    SameBits32(Step(Xor32(a, b)), Xor32(Step(a), Step(b)));
  }

  lemma {:induction false} StepsXor(a: u32, b: u32, n: nat)
    ensures Steps(Xor32(a, b), n) == Xor32(Steps(a, n), Steps(b, n))
    decreases n
  {
    if n == 0 {
    } else {
      StepXor(a, b);
      StepsXor(Step(a), Step(b), n - 1);
    }
  }

  // Stepping over zeros only shifts.
  lemma {:induction false} StepsShift(h: nat, n: nat)
    requires h * Pow2(n) < TWO_32
    ensures 0 <= h * Pow2(n) && Steps(h * Pow2(n), n) == h
  {
    Positive(h, Pow2(n));
    if n == 0 {
      assert h * Pow2(n) == h;
    } else {
      DoubleFactor(h, Pow2(n - 1));
      StepsShift(h, n - 1);
    }
  }

  // n steps are one look-up of the n low-order bits.
  lemma LookUp(low: u32, high: u32, n: nat, rest: u32)
    requires n <= 32 && low < Pow2(n) && rest == high * Pow2(n) && low + rest < TWO_32
    ensures Steps(low + rest, n) == Xor32(Steps(low, n), high)
  {
    Pow2Constants();
    ZipDisjoint((a, b) => a != b, low, high, n, 32);
    assert Xor32(low, rest) == low + rest;
    StepsXor(low, rest, n);
    StepsShift(high, n);
  }

  // ------------------------------------------------------------ feeding bits is stepping an xor

  lemma FeedOne(c: u32, u: u32)
    ensures Step(Xor32(c, u)) == Xor32(BitStep(c, u % 2 == 1), u / 2)
  {
    var d := BitStep(c, u % 2 == 1);
    forall i: nat | i < 32 ensures Bit(Step(Xor32(c, u)), i) == Bit(Xor32(d, u / 2), i) {
      StepBit(Xor32(c, u), i);
      XorBitAt(c, u, i + 1); XorBitAt(c, u, 0);
      Xor32Bit(d, u / 2, i);
      Xor32Bit(POLYNOMIAL, c / 2, i);
    }
    SameBits32(Step(Xor32(c, u)), Xor32(d, u / 2));
  }

  lemma {:induction false} StepsAreFeeding(c: u32, u: u32, n: nat)
    requires u < Pow2(n)
    ensures Steps(Xor32(c, u), n) == Feed(c, Bits(u, n))
    decreases n
  {
    if n == 0 {
      XorZero(c);
    } else {
      FeedOne(c, u);
      StepsAreFeeding(BitStep(c, u % 2 == 1), u / 2, n - 1);
      assert Bits(u, n)[1..] == Bits(u / 2, n - 1);
    }
  }

  // ------------------------------------------------------------ the table

  ghost predicate IsTable(table: seq<u32>, n: nat) {
    && Pow2(n) == |table| == 256 && n <= 32
    && forall i: nat :: i < 256 ==> table[i] == Steps(i, n)
  }

  method InitTable(n: nat) returns (table: array<u32>)
    requires Pow2(n) == 256 && n <= 32
    ensures fresh(table) && IsTable(table[..], n)
  {
    table := new u32[256];
    for i := 0 to 256
      invariant forall k: nat :: k < i ==> table[k] == Steps(k, n)
    {
      var c: u32 := i;
      for j := 0 to n
        invariant Steps(c, n - j) == Steps(i, n)
      {
        if c % 2 == 1 {
          c := Xor32(POLYNOMIAL, c / 2);
        } else {
          c := c / 2;
        }
      }
      table[i] := c;
    }
  }

  // An operand of k bits leaves the bits above alone.
  lemma {:induction false} XorKeepsHigh(a: nat, b: nat, k: nat, n: nat)
    requires k <= n && a < Pow2(n) && b < Pow2(k)
    ensures var f := (x: bool, y: bool) => x != y; Zip(f, a, b, n) / Pow2(k) == a / Pow2(k)
  {
    var f := (x: bool, y: bool) => x != y;
    if k == 0 {
      XorCommutes(a, b, n);
      ZipZero(f, a, n);
    } else {
      XorKeepsHigh(a / 2, b / 2, k - 1, n - 1);
      DivDiv(a, 2, Pow2(k - 1));
      DivDiv(Zip(f, a, b, n), 2, Pow2(k - 1));
      assert Zip(f, a, b, n) / 2 == Zip(f, a / 2, b / 2, n - 1);
    }
  }

  lemma XorKeepsHigh32(c: u32, u: byte, n: nat)
    requires Pow2(n) == 256 && n <= 32
    ensures Xor32(c, u) / 256 == c / 256
  {
    Pow2Constants();
    XorKeepsHigh(c, u, n, 32);
  }

  // One table look-up feeds one message byte.
  lemma ByteStep(c: u32, u: byte, n: nat)
    requires Pow2(n) == 256 && n <= 32
    ensures Xor32(Steps(Xor32(c, u) % 256, n), c / 256) == Feed(c, Bits(u, n))
  {
    var x := Xor32(c, u);
    StepsAreFeeding(c, u, n);
    XorKeepsHigh32(c, u, n);
    var low, high, rest := x % 256, x / 256, x / 256 * 256;
    assert x == low + rest;
    LookUp(low, high, n, rest);
  }

  // ------------------------------------------------------------ the checksum object

  lemma AdvanceBy(sofar: seq<byte>, u: byte, c: u32, n: nat)
    requires c == Register(sofar, n) && Pow2(n) == 256 && n <= 32
    ensures Xor32(Steps(Xor32(c, u) % 256, n), c / 256) == Register(sofar + [u], n)
  {
    RegisterSnoc(sofar, u, n);
    ByteStep(c, u, n);
  }

  lemma PrefixGrows(before: seq<byte>, data: seq<byte>, i: nat)
    requires i < |data|
    ensures before + data[..i] + [data[i]] == before + data[..i + 1]
  {
  }

  /** The loop of an update: the register goes on over the bytes of the data. */
  method FeedBytes(table: array<u32>, n: nat, result: u32, data: seq<byte>, ghost before: seq<byte>) returns (r: u32)
    requires IsTable(table[..], n) && result == Xor32(Register(before, n), ONES)
    ensures r == Xor32(Register(before + data, n), ONES)
  {
    XorTwice(Register(before, n), ONES);
    var c := Xor32(result, ONES);
    ghost var sofar := before;
    for i := 0 to |data|
      invariant c == Register(sofar, n) && sofar == before + data[..i]
    {
      AdvanceBy(sofar, data[i], c, n);
      PrefixGrows(before, data, i);
      sofar := sofar + [data[i]];
      var index := Xor32(c, data[i]) % 256;
      assert table[..][index] == Steps(index, n);
      c := Xor32(table[index], c / 256);
    }
    assert data[..|data|] == data;
    r := Xor32(c, ONES);
  }

  class Crc32 {
    var result: u32
    ghost var message: seq<byte>

    ghost predicate Valid()
      reads this
    {
      result == Checksum(message)
    }

    constructor ()
      ensures Valid() && message == []
    {
      XorTwice(0, ONES);
      result, message := 0, [];
    }

    method Update(data: seq<byte>)
      requires Valid()
      modifies this
      ensures Valid() && message == old(message) + data
    {
      var table := InitTable(8);
      result := FeedBytes(table, 8, result, data, message);
      message := message + data;
    }

    method Final() returns (checksum: u32)
      requires Valid()
      ensures checksum == Checksum(message)
    {
      checksum := result;
    }
  }

  // ------------------------------------------------------------ burst errors

  lemma {:induction false} LeadingBit(w: nat, n: nat)
    requires Pow2(n) <= w < 2 * Pow2(n)
    ensures Bit(w, n)
  {
    if n == 0 {
    } else {
      LeadingBit(w / 2, n - 1);
    }
  }

  lemma StepInjective(a: u32, b: u32)
    requires Step(a) == Step(b)
    ensures a == b
  {
    HighBit(a); HighBit(b);
    StepBit(a, 31); StepBit(b, 31);
    Pow2Constants();
    LeadingBit(POLYNOMIAL, 31);
    forall i: nat | i < 32 ensures Bit(a, i) == Bit(b, i) {
      if i > 0 {
        StepBit(a, i - 1); StepBit(b, i - 1);
      }
    }
    SameBits32(a, b);
  }

  lemma {:induction false} StepsInjective(a: u32, b: u32, n: nat)
    requires Steps(a, n) == Steps(b, n)
    ensures a == b
    decreases n
  {
    if n == 0 {
    } else {
      StepsInjective(Step(a), Step(b), n - 1);
      StepInjective(a, b);
    }
  }

  lemma BitStepInjective(a: u32, b: u32, bit: bool)
    requires BitStep(a, bit) == BitStep(b, bit)
    ensures a == b
  {
    var u := One(bit);
    FeedOne(a, u);
    FeedOne(b, u);
    StepInjective(Xor32(a, u), Xor32(b, u));
    XorInjective(a, b, u);
  }

  lemma {:induction false} FeedInjective(a: u32, b: u32, bits: seq<bool>)
    requires Feed(a, bits) == Feed(b, bits)
    ensures a == b
    decreases |bits|
  {
    if bits == [] {
    } else {
      FeedInjective(BitStep(a, bits[0]), BitStep(b, bits[0]), bits[1..]);
      BitStepInjective(a, b, bits[0]);
    }
  }

  /** The number with these bits. */
  function Number(bits: seq<bool>): (u: nat)
    ensures u < Pow2(|bits|) && Bits(u, |bits|) == bits
  {
    if bits == [] then 0 else 2 * Number(bits[1..]) + One(bits[0])
  }

  lemma FeedDistinguishes(c: u32, x: seq<bool>, y: seq<bool>)
    requires |x| == |y| <= 32 && Feed(c, x) == Feed(c, y)
    ensures x == y
  {
    Pow2Monotone(|x|, 32);
    Pow2Constants();
    var u, v := Number(x), Number(y);
    StepsAreFeeding(c, u, |x|);
    StepsAreFeeding(c, v, |y|);
    StepsInjective(Xor32(c, u), Xor32(c, v), |x|);
    XorCommutes(c, u, 32);
    XorCommutes(c, v, 32);
    XorInjective(u, v, c);
  }

  // Two messages that differ only within 32 consecutive bits have different checksums.
  lemma BurstErrorsAreDetected(m1: seq<byte>, m2: seq<byte>, p: seq<bool>, x: seq<bool>, y: seq<bool>, s: seq<bool>)
    requires MessageBits(m1, 8) == p + x + s && MessageBits(m2, 8) == p + y + s
    requires |x| == |y| <= 32 && x != y
    ensures Checksum(m1) != Checksum(m2)
  {
    if Checksum(m1) == Checksum(m2) {
      var c := Xor32(0, ONES);
      XorInjective(Register(m1, 8), Register(m2, 8), ONES);
      FeedAppend(c, p + x, s);
      FeedAppend(c, p + y, s);
      FeedInjective(Feed(c, p + x), Feed(c, p + y), s);
      FeedAppend(c, p, x);
      FeedAppend(c, p, y);
      FeedDistinguishes(Feed(c, p), x, y);
    }
  }

  // ------------------------------------------------------------ the residue

  lemma {:induction false} StepsAdd(c: u32, a: nat, b: nat)
    ensures Steps(c, a + b) == Steps(Steps(c, a), b)
    decreases a
  {
    if a == 0 {
    } else {
      StepsAdd(Step(c), a - 1, b);
      assert a - 1 + b == a + b - 1;
    }
  }

  const POLYNOMIAL_DIGITS := [HE, HD, HB, H8, H8, H3, H2, H0]

  /** One step, in hexadecimal. */
  predicate Follows(x: seq<Digit>, z: seq<Digit>) {
    |x| == 8 && if x[7].b0 then DigitsXor(POLYNOMIAL_DIGITS, Halved(x), z) else z == Halved(x)
  }

  lemma StepSpells(c: u32, x: seq<Digit>, z: seq<Digit>)
    requires Spells(c, x) && Follows(x, z)
    ensures Spells(Step(c), z)
  {
    HalvedSpells(c, x);
    if x[7].b0 {
      HexXor(POLYNOMIAL, c / 2, POLYNOMIAL_DIGITS, Halved(x), z);
    }
  }

  lemma FourSteps(c: u32, n: nat, x0: seq<Digit>, x1: seq<Digit>, x2: seq<Digit>, x3: seq<Digit>, x4: seq<Digit>)
    requires n >= 4 && Spells(c, x0) && Follows(x0, x1) && Follows(x1, x2) && Follows(x2, x3) && Follows(x3, x4)
    ensures exists c4: u32 :: Spells(c4, x4) && Steps(c, n) == Steps(c4, n - 4)
  {
    var c1 := Step(c);
    var c2 := Step(c1);
    var c3 := Step(c2);
    StepSpells(c, x0, x1);
    StepSpells(c1, x1, x2);
    StepSpells(c2, x2, x3);
    StepSpells(c3, x3, x4);
    assert Steps(c, n) == Steps(c1, n - 1) == Steps(c2, n - 2) == Steps(c3, n - 3) == Steps(Step(c3), n - 4);
  }

  lemma EightSteps(c: u32, n: nat, x0: seq<Digit>, x1: seq<Digit>, x2: seq<Digit>, x3: seq<Digit>, x4: seq<Digit>,
                   x5: seq<Digit>, x6: seq<Digit>, x7: seq<Digit>, x8: seq<Digit>)
    requires n == 8 && Spells(c, x0) && Follows(x0, x1) && Follows(x1, x2) && Follows(x2, x3) && Follows(x3, x4)
    requires Follows(x4, x5) && Follows(x5, x6) && Follows(x6, x7) && Follows(x7, x8)
    ensures Spells(Steps(c, n), x8)
  {
    FourSteps(c, n, x0, x1, x2, x3, x4);
    var c4: u32 :| Spells(c4, x4) && Steps(c, n) == Steps(c4, n - 4);
    FourSteps(c4, n - 4, x4, x5, x6, x7, x8);
  }

  lemma Byte1(c: u32, n: nat)
    requires n == 8 && Spells(c, [HF, HF, HF, HF, HF, HF, HF, HF])
    ensures Spells(Steps(c, n), [H2, HD, HF, HD, H1, H0, H7, H2])
  {
    EightSteps(c, n, [HF, HF, HF, HF, HF, HF, HF, HF], [H9, H2, H4, H7, H7, HC, HD, HF],
               [HA, H4, H9, HB, H3, HD, H4, HF],
               [HB, HF, HF, H5, H1, HD, H8, H7], [HB, H2, H4, H2, H0, HD, HE, H3], [HB, H4, H9, H9, H8, H5, HD, H1],
               [HB, H7, HF, H4, H4, H1, HC, H8], [H5, HB, HF, HA, H2, H0, HE, H4], [H2, HD, HF, HD, H1, H0, H7, H2]);
  }

  lemma Byte2(c: u32, n: nat)
    requires n == 8 && Spells(c, [H2, HD, HF, HD, H1, H0, H7, H2])
    ensures Spells(Steps(c, n), [HB, HE, H2, H6, HE, HD, H0, H0])
  {
    EightSteps(c, n, [H2, HD, HF, HD, H1, H0, H7, H2], [H1, H6, HF, HE, H8, H8, H3, H9],
               [HE, H6, HC, H7, HC, H7, H3, HC],
               [H7, H3, H6, H3, HE, H3, H9, HE], [H3, H9, HB, H1, HF, H1, HC, HF], [HF, H1, H6, H0, H7, HB, HC, H7],
               [H9, H5, H0, H8, HB, HE, HC, H3], [HA, H7, H3, HC, HD, HC, H4, H1], [HB, HE, H2, H6, HE, HD, H0, H0]);
  }

  lemma Byte3(c: u32, n: nat)
    requires n == 8 && Spells(c, [HB, HE, H2, H6, HE, HD, H0, H0])
    ensures Spells(Steps(c, n), [H0, H0, HB, HE, H2, H6, HE, HD])
  {
    EightSteps(c, n, [HB, HE, H2, H6, HE, HD, H0, H0], [H5, HF, H1, H3, H7, H6, H8, H0],
               [H2, HF, H8, H9, HB, HB, H4, H0],
               [H1, H7, HC, H4, HD, HD, HA, H0], [H0, HB, HE, H2, H6, HE, HD, H0], [H0, H5, HF, H1, H3, H7, H6, H8],
               [H0, H2, HF, H8, H9, HB, HB, H4], [H0, H1, H7, HC, H4, HD, HD, HA], [H0, H0, HB, HE, H2, H6, HE, HD]);
  }

  lemma Byte4(c: u32, n: nat)
    requires n == 8 && Spells(c, [H0, H0, HB, HE, H2, H6, HE, HD])
    ensures Spells(Steps(c, n), [HD, HE, HB, HB, H2, H0, HE, H3])
  {
    EightSteps(c, n, [H0, H0, HB, HE, H2, H6, HE, HD], [HE, HD, HE, H7, H9, H0, H5, H6],
               [H7, H6, HF, H3, HC, H8, H2, HB],
               [HD, H6, HC, H1, H6, H7, H3, H5], [H8, H6, HD, H8, H3, H0, HB, HA], [H4, H3, H6, HC, H1, H8, H5, HD],
               [HC, HC, H0, HE, H8, HF, H0, HE], [H6, H6, H0, H7, H4, H7, H8, H7], [HD, HE, HB, HB, H2, H0, HE, H3]);
  }

  lemma FourRounds(c: u32, n: nat)
    ensures Steps(c, n + n + n + n) == Steps(Steps(Steps(Steps(c, n), n), n), n)
  {
    StepsAdd(c, n, n);
    StepsAdd(c, n + n, n);
    StepsAdd(c, n + n + n, n);
  }

  lemma ThirtyTwoSteps(c: u32, n: nat)
    requires n == 8 && Spells(c, [HF, HF, HF, HF, HF, HF, HF, HF])
    ensures Spells(Steps(c, n + n + n + n), [HD, HE, HB, HB, H2, H0, HE, H3])
  {
    FourRounds(c, n);
    var c1 := Steps(c, n);
    var c2 := Steps(c1, n);
    var c3 := Steps(c2, n);
    Byte1(c, n);
    Byte2(c1, n);
    Byte3(c2, n);
    Byte4(c3, n);
  }

  lemma {:induction false} BitsJoin(low: nat, high: nat, a: nat, b: nat, u: nat)
    requires low < Pow2(a) && u == low + high * Pow2(a)
    ensures Bits(u, a + b) == Bits(low, a) + Bits(high, b)
    decreases a
  {
    if a == 0 {
      assert high * Pow2(a) == high;
    } else {
      var rest := high * Pow2(a - 1);
      DoubleFactor(high, Pow2(a - 1));
      Positive(high, Pow2(a - 1));
      BitsJoin(low / 2, high, a - 1, b, low / 2 + rest);
      assert u == low + 2 * rest && u / 2 == low / 2 + rest;
      assert a - 1 + b == a + b - 1;
    }
  }

  lemma FourBytesBits(b: seq<byte>, n: nat)
    requires |b| == 4
    ensures MessageBits(b, n) == Bits(b[0], n) + (Bits(b[1], n) + (Bits(b[2], n) + Bits(b[3], n)))
  {
    assert b[1..][1..] == b[2..] && b[2..][1..] == b[3..] && b[3..][1..] == [];
    assert MessageBits(b[3..], n) == Bits(b[3], n);
    assert MessageBits(b[2..], n) == Bits(b[2], n) + MessageBits(b[3..], n);
    assert MessageBits(b[1..], n) == Bits(b[1], n) + MessageBits(b[2..], n);
  }

  lemma BytesOf(u: u32)
    ensures var b := LittleEndian32(u);
            && u == b[0] + 256 * (u / 256) && u / 256 == b[1] + 256 * (u / 65536)
            && u / 65536 == b[2] + 256 * (u / 16777216) && u / 16777216 == b[3]
  {
    assert u / 256 / 256 == u / 65536 && u / 65536 / 256 == u / 16777216;
  }

  // The bytes of a number, low-order byte first, have its bits in order.
  lemma WordBits(u: u32, n: nat)
    requires Pow2(n) == 256
    ensures MessageBits(LittleEndian32(u), n) == Bits(u, n + (n + (n + n)))
  {
    var b := LittleEndian32(u);
    BytesOf(u);
    FourBytesBits(b, n);
    BitsJoin(b[0], u / 256, n, n + (n + n), u);
    BitsJoin(b[1], u / 65536, n, n + n, u / 256);
    BitsJoin(b[2], u / 16777216, n, n, u / 65536);
  }

  lemma RegisterOfResidue(m: seq<byte>, n: nat)
    requires n == 8
    ensures Spells(Register(m + LittleEndian32(Xor32(Register(m, n), ONES)), n), [HD, HE, HB, HB, H2, H0, HE, H3])
  {
    var c := Register(m, n);
    var u := Xor32(c, ONES);
    MessageBitsAppend(m, LittleEndian32(u), n);
    FeedAppend(Xor32(0, ONES), MessageBits(m, n), MessageBits(LittleEndian32(u), n));
    Pow2Byte();
    WordBits(u, n);
    FourTimes(n);
    assert n + (n + (n + n)) == n + n + n + n;
    StepsAreFeeding(c, u, n + n + n + n);
    XorOfXor(c, ONES);
    ThirtyTwoSteps(Xor32(c, u), n);
  }

  lemma FourTimes(n: nat)
    requires Pow2(n) == 256
    ensures Pow2(n + n + n + n) == TWO_32
  {
    Pow2Add(n, n);
    Pow2Add(n + n, n);
    Pow2Add(n + n + n, n);
  }

  lemma Complement(c: u32)
    requires Spells(c, [HD, HE, HB, HB, H2, H0, HE, H3])
    ensures Xor32(c, ONES) == 0x2144_DF1C
  {
    HexXor(c, ONES, [HD, HE, HB, HB, H2, H0, HE, H3], [HF, HF, HF, HF, HF, HF, HF, HF],
           [H2, H1, H4, H4, HD, HF, H1, HC]);
  }

  /**
   A message followed by its own checksum, low-order byte first, has the checksum
   0x2144DF1C, whatever the message: the residue of this polynomial.
   */
  lemma Residue(m: seq<byte>)
    ensures Checksum(m + LittleEndian32(Checksum(m))) == 0x2144_DF1C
  {
    RegisterOfResidue(m, 8);
    Complement(Register(m + LittleEndian32(Checksum(m)), 8));
  }
}
