/** Powers of two, the machine-integer ranges, and the few facts about products and quotients the other modules use. */
module Powers {
  const TWO_32: nat := 0x1_0000_0000
  const TWO_64: nat := 0x1_0000_0000_0000_0000

  type byte = x: int | 0 <= x < 256
  type u32 = x: nat | x < TWO_32
  type u64 = x: nat | x < TWO_64

  function One(b: bool): nat { if b then 1 else 0 }

  /** The four low-order bytes of a number, lowest first. */
  function LittleEndian32(v: nat): (b: seq<byte>)
    ensures |b| == 4
  {
    [v % 256, v / 256 % 256, v / 65536 % 256, v / 16777216 % 256]
  }

  function Pow2(n: nat): (r: nat)
    ensures r >= 1
  {
    if n == 0 then 1 else 2 * Pow2(n - 1)
  }

  lemma {:induction false} Pow2Add(a: nat, b: nat)
    ensures Pow2(a + b) == Pow2(a) * Pow2(b)
    decreases b
  {
    if b == 0 {
    } else {
      Pow2Add(a, b - 1);
      assert a + b - 1 == a + (b - 1);
      DoubleFactor(Pow2(a), Pow2(b - 1));
    }
  }

  lemma {:induction false} Pow2Monotone(a: nat, b: nat)
    requires a <= b
    ensures Pow2(a) <= Pow2(b)
    decreases b - a
  {
    if a >= b {
    } else {
      Pow2Monotone(a, b - 1);
    }
  }

  lemma Pow2Constants()
    ensures Pow2(31) == 0x8000_0000
    ensures Pow2(32) == TWO_32
  {
    Pow2Byte();
    Pow2Step(8); Pow2Step(16); Pow2Step(24);
    assert Pow2(32) == 2 * Pow2(31);
  }

  lemma Pow2Of64()
    ensures Pow2(64) == TWO_64
  {
    Pow2Constants();
    Pow2Add(32, 32);
  }

  lemma Pow2Byte()
    ensures Pow2(8) == 256
  {
    assert Pow2(4) == 16;
  }

  lemma Pow2Step(n: nat)
    ensures Pow2(n + 8) == 256 * Pow2(n)
  {
    Pow2Byte();
    Pow2Add(n, 8);
  }

  // ---- products

  lemma DoubleFactor(x: int, y: int)
    ensures 2 * (x * y) == x * (2 * y)
  {
  }

  lemma Swap(a: int, b: int, c: int)
    ensures (a * b) * c == (a * c) * b == a * (b * c)
  {
  }

  lemma Distribute(a: int, b: int, c: int)
    ensures (a + b) * c == a * c + b * c
    ensures (a - b) * c == a * c - b * c
    ensures c * (a + b) == a * c + b * c
    ensures c * (a - b) == a * c - b * c
  {
  }

  lemma MulLe(a: int, b: int, c: int)
    requires a <= b && c >= 0
    ensures a * c <= b * c
  {
    Distribute(b, a, c);
    Positive(b - a, c);
  }

  lemma Positive(a: int, b: int)
    requires a >= 0 && b >= 0
    ensures a * b >= 0
  {
  }

  lemma FactorBelowOne(a: int, d: int)
    requires d > 0 && a * d < d
    ensures a <= 0
  {
    if a >= 1 {
      MulLe(1, a, d);
    }
  }

  lemma CancelLe(a: int, b: int, t: int)
    requires t > 0 && a * t <= b * t
    ensures a <= b
  {
    Distribute(a, b, t);
    FactorBelowOne(a - b, t);
  }

  lemma CancelLt(a: int, b: int, t: int)
    requires t > 0 && a * t < b * t
    ensures a < b
  {
    Distribute(a, b, t);
    Distribute(a - b, 1, t);
    FactorBelowOne(a - b + 1, t);
  }

  // ---- quotients

  lemma DivMod(x: nat, d: nat)
    requires d > 0
    ensures x / d >= 0 && 0 <= x % d < d
    ensures x == x / d * d + x % d
    ensures (x / d + 1) * d == x / d * d + d
  {
    Distribute(x / d, 1, d);
  }

  // Floor of a quotient, pinned down by its two bounds.
  lemma QuotientUnique(x: nat, d: nat, q: int)
    requires d > 0
    requires q * d <= x < q * d + d
    ensures x / d == q && x % d == x - q * d
  {
    DivMod(x, d);
    Distribute(q, x / d, d);
    Distribute(x / d, q, d);
    FactorBelowOne(q - x / d, d);
    FactorBelowOne(x / d - q, d);
  }

  // Dividing twice is dividing by the product.
  lemma DivDiv(x: nat, a: nat, b: nat)
    requires a > 0 && b > 0
    ensures a * b > 0
    ensures (x / a) / b == x / (a * b)
  {
    MulLe(1, a, b);
    var q1, r1 := x / a, x % a;
    DivMod(x, a);
    var q2, r2 := q1 / b, q1 % b;
    DivMod(q1, b);
    DivDivBounds(x, a, b, q1, r1, q2, r2);
    QuotientUnique(x, a * b, q2);
  }

  lemma DivDivBounds(x: int, a: int, b: int, q1: int, r1: int, q2: int, r2: int)
    requires a > 0 && b > 0
    requires x == q1 * a + r1 && 0 <= r1 < a
    requires q1 == q2 * b + r2 && 0 <= r2 < b
    ensures q2 * (a * b) <= x < q2 * (a * b) + a * b
  {
    Distribute(q2 * b, r2, a);
    Swap(q2, b, a);
    Swap(q2, a, b);
    MulLe(0, r2, a);
    MulLe(r2, b - 1, a);
    Distribute(b, 1, a);
  }

  lemma DivMonotone(x: nat, y: nat, t: nat)
    requires t > 0 && x <= y
    ensures x / t <= y / t
  {
    DivMod(x, t);
    DivMod(y, t);
    CancelLt(x / t, y / t + 1, t);
  }

  lemma ExactQuotient(q: nat, p: nat)
    requires p > 0
    ensures q * p >= 0 && q * p % p == 0 && q * p / p == q
  {
    Positive(q, p);
    QuotientUnique(q * p, p, q);
  }

  // ---- bytes

  /** The number that bytes spell, low-order byte first. */
  function LittleEndianValue(b: seq<byte>): nat {
    if b == [] then 0 else b[0] as nat + 256 * LittleEndianValue(b[1..])
  }

  lemma FourBytes(v: u32)
    ensures v == v % 256 + 256 * (v / 256 % 256) + 65536 * (v / 65536 % 256) + 16777216 * (v / 16777216 % 256)
  {
    var a, b, c := v / 256, v / 65536, v / 16777216;
    assert v == 256 * a + v % 256;
    assert b == a / 256 && a == 256 * b + a % 256;
    assert c == b / 256 && b == 256 * c + b % 256;
    assert c % 256 == c;
  }

  lemma FourLittleEndian(b: seq<byte>)
    requires |b| == 4
    ensures LittleEndianValue(b) == b[0] as int + 256 * (b[1] as int) + 65536 * (b[2] as int) + 16777216 * (b[3] as int)
  {
    var b1, b2, b3 := b[3..], b[2..], b[1..];
    assert b3[1..] == b2 && b2[1..] == b1 && b1[1..] == [];
    assert LittleEndianValue(b1) == b[3];
    assert LittleEndianValue(b2) == b[2] as int + 256 * LittleEndianValue(b1);
    assert LittleEndianValue(b3) == b[1] as int + 256 * LittleEndianValue(b2);
  }

  lemma LittleEndian32Value(v: u32)
    ensures LittleEndianValue(LittleEndian32(v)) == v
  {
    FourBytes(v);
    FourLittleEndian(LittleEndian32(v));
  }
}
