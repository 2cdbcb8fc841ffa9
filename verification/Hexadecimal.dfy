/** Exclusive or of 32-bit numbers written in hexadecimal, digit by digit: for values that are worked out by hand. */
module Hexadecimal {
  import opened Powers
  import opened Words

  datatype Digit = Digit(b3: bool, b2: bool, b1: bool, b0: bool)

  const H0 := Digit(false, false, false, false)
  const H1 := Digit(false, false, false, true)
  const H2 := Digit(false, false, true, false)
  const H3 := Digit(false, false, true, true)
  const H4 := Digit(false, true, false, false)
  const H5 := Digit(false, true, false, true)
  const H6 := Digit(false, true, true, false)
  const H7 := Digit(false, true, true, true)
  const H8 := Digit(true, false, false, false)
  const H9 := Digit(true, false, false, true)
  const HA := Digit(true, false, true, false)
  const HB := Digit(true, false, true, true)
  const HC := Digit(true, true, false, false)
  const HD := Digit(true, true, false, true)
  const HE := Digit(true, true, true, false)
  const HF := Digit(true, true, true, true)

  function Value(d: Digit): nat {
    8 * One(d.b3) + 4 * One(d.b2) + 2 * One(d.b1) + One(d.b0)
  }

  function XorDigit(x: Digit, y: Digit): Digit {
    Digit(x.b3 != y.b3, x.b2 != y.b2, x.b1 != y.b1, x.b0 != y.b0)
  }

  /** The number that hexadecimal digits spell. */
  function HexValue(x: seq<Digit>): nat {
    if x == [] then 0 else 16 * HexValue(x[..|x| - 1]) + Value(x[|x| - 1])
  }

  /** Eight hexadecimal digits spell c. */
  predicate Spells(c: nat, x: seq<Digit>) {
    |x| == 8 && c == Spelled(Value(x[0]), Value(x[1]), Value(x[2]), Value(x[3]),
                             Value(x[4]), Value(x[5]), Value(x[6]), Value(x[7]))
  }

  function Spelled(v0: nat, v1: nat, v2: nat, v3: nat, v4: nat, v5: nat, v6: nat, v7: nat): nat {
    0x1000_0000 * v0 + 0x100_0000 * v1 + 0x10_0000 * v2 + 0x1_0000 * v3 + 0x1000 * v4 + 0x100 * v5 + 0x10 * v6 + v7
  }

  /** The digits of z are those of x and y, combined one by one. */
  predicate DigitsXor(x: seq<Digit>, y: seq<Digit>, z: seq<Digit>) {
    && |x| == |y| == |z| == 8
    && z[0] == XorDigit(x[0], y[0]) && z[1] == XorDigit(x[1], y[1])
    && z[2] == XorDigit(x[2], y[2]) && z[3] == XorDigit(x[3], y[3])
    && z[4] == XorDigit(x[4], y[4]) && z[5] == XorDigit(x[5], y[5])
    && z[6] == XorDigit(x[6], y[6]) && z[7] == XorDigit(x[7], y[7])
  }

  lemma ZipPair(c: nat, d: nat, n: nat, p: bool, q: bool)
    requires p == ((c / 2 % 2 == 1) != (d / 2 % 2 == 1)) && q == ((c % 2 == 1) != (d % 2 == 1))
    ensures var f := (x: bool, y: bool) => x != y;
            Zip(f, c, d, n + 2) == 4 * Zip(f, c / 4, d / 4, n) + 2 * One(p) + One(q)
  {
    var f := (x: bool, y: bool) => x != y;
    assert Zip(f, c / 2, d / 2, n + 1) == 2 * Zip(f, c / 2 / 2, d / 2 / 2, n) + One(p);
    assert c / 2 / 2 == c / 4 && d / 2 / 2 == d / 4;
  }

  lemma LowDigit(a: nat, x: Digit)
    ensures var c := 16 * a + Value(x);
            && (c % 2 == 1 <==> x.b0) && (c / 2 % 2 == 1 <==> x.b1)
            && (c / 4 % 2 == 1 <==> x.b2) && (c / 4 / 2 % 2 == 1 <==> x.b3) && c / 4 / 4 == a
  {
    var c := 16 * a + Value(x);
    assert c / 2 == 8 * a + 4 * One(x.b3) + 2 * One(x.b2) + One(x.b1);
    assert c / 4 == 4 * a + 2 * One(x.b3) + One(x.b2);
    assert c / 4 / 2 == 2 * a + One(x.b3);
  }

  lemma ZipFour(c: nat, d: nat, z: Digit, n: nat)
    requires z.b0 == ((c % 2 == 1) != (d % 2 == 1)) && z.b1 == ((c / 2 % 2 == 1) != (d / 2 % 2 == 1))
    requires z.b2 == ((c / 4 % 2 == 1) != (d / 4 % 2 == 1)) && z.b3 == ((c / 4 / 2 % 2 == 1) != (d / 4 / 2 % 2 == 1))
    ensures var f := (x: bool, y: bool) => x != y;
            Zip(f, c, d, n + 4) == 16 * Zip(f, c / 4 / 4, d / 4 / 4, n) + Value(z)
  {
    ZipPair(c / 4, d / 4, n, z.b3, z.b2);
    ZipPair(c, d, n + 2, z.b1, z.b0);
  }

  lemma ZipDigit(a: nat, b: nat, x: Digit, y: Digit, n: nat)
    ensures var f := (x: bool, y: bool) => x != y;
            Zip(f, 16 * a + Value(x), 16 * b + Value(y), n + 4) == 16 * Zip(f, a, b, n) + Value(XorDigit(x, y))
  {
    LowDigit(a, x);
    LowDigit(b, y);
    ZipFour(16 * a + Value(x), 16 * b + Value(y), XorDigit(x, y), n);
  }

  lemma {:induction false} XorByDigits(x: seq<Digit>, y: seq<Digit>, z: seq<Digit>, n: nat)
    requires |x| == |y| == |z| && n == 4 * |x| && forall i :: 0 <= i < |x| ==> z[i] == XorDigit(x[i], y[i])
    ensures Zip((x: bool, y: bool) => x != y, HexValue(x), HexValue(y), n) == HexValue(z)
  {
    if x == [] {
    } else {
      var k := |x| - 1;
      XorByDigits(x[..k], y[..k], z[..k], n - 4);
      ZipDigit(HexValue(x[..k]), HexValue(y[..k]), x[k], y[k], n - 4);
    }
  }

  lemma FourMore(x: seq<Digit>)
    requires |x| >= 4
    ensures var k := |x| - 4;
            HexValue(x) == 0x1_0000 * HexValue(x[..k])
                           + 0x1000 * Value(x[k]) + 0x100 * Value(x[k + 1]) + 0x10 * Value(x[k + 2]) + Value(x[k + 3])
  {
    var k := |x| - 4;
    var x1, x2, x3 := x[..k + 1], x[..k + 2], x[..k + 3];
    assert x3[..k + 2] == x2 && x2[..k + 1] == x1 && x1[..k] == x[..k];
    assert HexValue(x3) == 16 * HexValue(x2) + Value(x[k + 2]);
    assert HexValue(x2) == 16 * HexValue(x1) + Value(x[k + 1]);
  }

  lemma SpellsValue(c: nat, x: seq<Digit>)
    requires |x| == 8
    ensures Spells(c, x) <==> c == HexValue(x)
  {
    FourMore(x);
    FourMore(x[..4]);
    assert x[..4][..0] == [];
  }

  lemma ValueXor(x: seq<Digit>, y: seq<Digit>, z: seq<Digit>)
    requires DigitsXor(x, y, z)
    ensures Zip((x: bool, y: bool) => x != y, HexValue(x), HexValue(y), 32) == HexValue(z)
  {
    XorByDigits(x, y, z, 32);
  }

  lemma HexXor(a: u32, b: u32, x: seq<Digit>, y: seq<Digit>, z: seq<Digit>)
    requires Spells(a, x) && Spells(b, y) && DigitsXor(x, y, z)
    ensures Spells(Xor32(a, b), z)
  {
    SpellsValue(a, x);
    SpellsValue(b, y);
    ValueXor(x, y, z);
    SpellsValue(Xor32(a, b), z);
  }

  // ------------------------------------------------------------ halves

  /** A digit of half a number: the digit at its place and the lowest bit of the one before. */
  function Half(above: Digit, d: Digit): Digit {
    Digit(above.b0, d.b3, d.b2, d.b1)
  }

  function Halved(x: seq<Digit>): (y: seq<Digit>)
    requires |x| == 8
    ensures |y| == 8
  {
    [Half(H0, x[0]), Half(x[0], x[1]), Half(x[1], x[2]), Half(x[2], x[3]),
     Half(x[3], x[4]), Half(x[4], x[5]), Half(x[5], x[6]), Half(x[6], x[7])]
  }

  lemma HalfDigit(above: Digit, d: Digit)
    ensures 2 * Value(Half(above, d)) + One(d.b0) == 16 * One(above.b0) + Value(d)
  {
  }

  /** A digit of half the number that x spells. */
  function HalfAt(x: seq<Digit>, i: nat): Digit
    requires i < |x|
  {
    Half(if i == 0 then H0 else x[i - 1], x[i])
  }

  lemma {:induction false} HalvedValue(x: seq<Digit>, y: seq<Digit>)
    requires |x| == |y| > 0 && forall i: nat :: i < |x| ==> y[i] == HalfAt(x, i)
    ensures HexValue(x) == 2 * HexValue(y) + One(x[|x| - 1].b0)
  {
    var k := |x| - 1;
    assert y[k] == HalfAt(x, k);
    if k == 0 {
      assert x[..0] == [] == y[..0];
      HalfDigit(H0, x[0]);
    } else {
      forall i: nat | i < k ensures y[..k][i] == HalfAt(x[..k], i) {
        assert y[i] == HalfAt(x, i);
      }
      HalvedValue(x[..k], y[..k]);
      HalfDigit(x[k - 1], x[k]);
    }
  }

  lemma HalvedDigits(x: seq<Digit>, i: nat)
    requires |x| == 8 && i < 8
    ensures Halved(x)[i] == HalfAt(x, i)
  {
  }

  lemma HalvedHex(x: seq<Digit>)
    requires |x| == 8
    ensures HexValue(x) == 2 * HexValue(Halved(x)) + One(x[7].b0)
  {
    var y := Halved(x);
    forall i: nat | i < 8 ensures y[i] == HalfAt(x, i) {
      HalvedDigits(x, i);
    }
    HalvedValue(x, y);
  }

  lemma HalvedSpells(c: nat, x: seq<Digit>)
    requires Spells(c, x)
    ensures Spells(c / 2, Halved(x)) && (c % 2 == 1 <==> x[7].b0)
  {
    SpellsValue(c, x);
    HalvedHex(x);
    SpellsValue(c / 2, Halved(x));
  }
}
