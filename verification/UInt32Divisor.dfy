/**
 Division of a 32-bit dividend by an invariant 32-bit divisor through a
 multiplication and a shift: the parameter search of base/uint32_divisor.cpp and
 the four evaluation schemes of base/uint32_divisor.h.
 */
module UInt32Division {
  import opened Powers

  datatype Algorithm = MultipleShift | MultipleAddShift | Shift | Compare | Invalid

  /** The 64-bit product of two 32-bit factors. */
  function Product(x: u32, m: u32): (p: u64)
    ensures p == x * m
  {
    Positive(x, m);
    MulLe(x, TWO_32 - 1, m);
    x * m
  }

  /** A right shift. */
  function ShiftRight(x: nat, s: nat): (r: nat)
    ensures r == x / Pow2(s)
  {
    DivMod(x, Pow2(s));
    x / Pow2(s)
  }

  /** What `Divide` evaluates, with the truncations of its 32-bit variables. */
  function Quotient(a: Algorithm, divisor: u32, multiplier: u32, shift: u32, x: u32): (q: nat)
    requires a != Invalid
  {
    match a
    case MultipleShift => ShiftRight(Product(x, multiplier) / TWO_32, shift)
    case MultipleAddShift => ShiftRight(CarriedHigh(Product(x, multiplier), multiplier), shift)
    case Shift => ShiftRight(x, shift)
    case Compare => if x >= divisor then 1 else 0
  }

  /** High word of the product, incremented when adding the multiplier to the low word wraps. */
  function CarriedHigh(product: u64, multiplier: u32): (high: u32)
    ensures product + multiplier < TWO_64 ==> high == (product + multiplier) / TWO_32
  {
    var high := product / TWO_32;
    var low := product % TWO_32;
    if (low + multiplier) % TWO_32 < low then (high + 1) % TWO_32 else high
  }

  /** The parameters divide every 32-bit dividend exactly. */
  ghost predicate Exact(divisor: u32, a: Algorithm, multiplier: u32, shift: u32) {
    divisor > 0 && a != Invalid && forall x: u32 :: Quotient(a, divisor, multiplier, shift, x) == x / divisor
  }

  /** The largest multiple of t that fits in 32 bits. */
  function LargestMultiple(t: nat): nat
    requires t > 0
  {
    TWO_32 - 1 - (TWO_32 - 1) % t
  }

  /** m over P approximates 1/t from above, closely enough for every dividend up to 2^32 - 1. */
  predicate RoundsUp(m: nat, t: nat, P: nat)
    requires t > 0
  {
    m * t > P && (m * t - P) * LargestMultiple(t) <= P
  }

  /** m over P approximates 1/t from below, closely enough once a dividend is incremented. */
  predicate RoundsDown(m: nat, t: nat, P: nat) {
    m * t < P && TWO_32 * (P - m * t) <= P
  }

  // ---------------------------------------------------------------- exactness

  lemma LargestMultipleFacts(t: nat)
    requires t % 2 == 1 && 3 <= t < 0x8000_0000
    ensures LargestMultiple(t) == (TWO_32 - 1) / t * t
    ensures t <= LargestMultiple(t) && 0x8000_0000 < LargestMultiple(t) < TWO_32
    ensures (TWO_32 - 1) % t <= t - 2
  {
    DivMod(TWO_32 - 1, t);
    var q := (TWO_32 - 1) / t;
    Pow2Constants();
    OddDoesNotDividePow2(t, q + 1, 32);
    if q <= 0 { MulLe(q, 0, t); }
    MulLe(1, q, t);
  }

  // An odd number above one divides no power of two.
  lemma {:induction false} OddDoesNotDividePow2(t: nat, q: nat, n: nat)
    requires t % 2 == 1 && t >= 3
    ensures q * t != Pow2(n)
    decreases n
  {
    if n == 0 {
      if q >= 1 { MulLe(1, q, t); }
    } else if q % 2 == 0 {
      OddDoesNotDividePow2(t, q / 2, n - 1);
      Swap(2, q / 2, t);
    } else {
      OddTimesOdd(q, t);
    }
  }

  lemma OddTimesOdd(a: nat, b: nat)
    requires a % 2 == 1 && b % 2 == 1
    ensures a * b % 2 == 1
  {
    var k := a / 2 * b;
    Distribute(2 * (a / 2), 1, b);
    Swap(2, a / 2, b);
    assert a * b == 2 * k + b;
  }

  // The error term x*e stays below the distance from x to the next multiple of t.
  lemma RoundUpError(x: u32, e: nat, t: nat, P: nat)
    requires t % 2 == 1 && 3 <= t < 0x8000_0000 && e > 0
    requires e * LargestMultiple(t) <= P
    ensures x * e < (t - x % t) * P
  {
    LargestMultipleFacts(t);
    DivMod(TWO_32 - 1, t);
    DivMod(x, t);
    var c, r := LargestMultiple(t), x % t;
    if x < c {
      MulLe(x, c - 1, e);
      Distribute(c, 1, e);
      MulLe(1, t - r, P);
    } else {
      QuotientUnique(x, t, (TWO_32 - 1) / t);
      MulLe(r, c - 1, e);
      Distribute(c, 1, e);
      Distribute(c, r, e);
      MulLe(2, t - r, P);
    }
  }

  lemma RoundUpExact(x: u32, m: nat, t: nat, P: nat)
    requires t % 2 == 1 && 3 <= t < 0x8000_0000 && P > 0
    requires RoundsUp(m, t, P)
    ensures x * m / P == x / t
  {
    RoundUpError(x, m * t - P, t, P);
    DivMod(x, t);
    RoundUpBounds(x, x / t, x % t, m, t, m * t - P, P);
    Positive(x, m);
    QuotientUnique(x * m, P, x / t);
  }

  lemma RoundUpBounds(x: nat, q: nat, r: nat, m: nat, t: nat, e: nat, P: nat)
    requires t > 0 && x == q * t + r && m * t == P + e
    requires x * e < (t - r) * P
    ensures q * P <= x * m < q * P + P
  {
    Swap(x, m, t);
    Distribute(P, e, x);
    Swap(q, P, t);
    Distribute(q * t, r, P);
    Distribute(t, r, P);
    Distribute(q * P, P, t);
    Positive(r, P);
    Positive(x, e);
    CancelLe(q * P, x * m, t);
    CancelLt(x * m, q * P + P, t);
  }

  lemma RoundDownExact(x: u32, m: nat, t: nat, P: nat)
    requires t >= 1 && P > 0
    requires RoundsDown(m, t, P)
    ensures (x + 1) * m / P == x / t
  {
    DivMod(x, t);
    RoundDownBounds(x + 1, x / t, x % t, m, t, P - m * t, P);
    Positive(x + 1, m);
    QuotientUnique((x + 1) * m, P, x / t);
  }

  lemma RoundDownBounds(y: nat, q: nat, r: nat, m: nat, t: nat, e: nat, P: nat)
    requires t > 0 && 0 < y <= TWO_32 && y == q * t + r + 1 && r < t && m * t == P - e
    requires 0 < e && TWO_32 * e <= P
    ensures q * P <= y * m < q * P + P
  {
    Swap(y, m, t);
    Distribute(P, e, y);
    MulLe(y, TWO_32, e);
    MulLe(1, y, e);
    Swap(q, P, t);
    Distribute(q * t, r + 1, P);
    Distribute(q * P, P, t);
    MulLe(1, r + 1, P);
    MulLe(r + 1, t, P);
    CancelLe(q * P, y * m, t);
    CancelLt(y * m, q * P + P, t);
  }

  // ---------------------------------------------------------------- evaluation

  lemma MultipleShiftEvaluates(d: u32, m: u32, s: u32, x: u32)
    ensures Quotient(MultipleShift, d, m, s, x) == x * m / Pow2(32 + s)
  {
    Pow2Constants();
    DivDiv(Product(x, m), TWO_32, Pow2(s));
    Pow2Add(32, s);
  }

  lemma MultipleAddShiftEvaluates(d: u32, m: u32, s: u32, x: u32)
    ensures Quotient(MultipleAddShift, d, m, s, x) == (x + 1) * m / Pow2(32 + s)
  {
    Pow2Constants();
    Distribute(x, 1, m);
    MulLe(x + 1, TWO_32, m);
    DivDiv(Product(x, m) + m, TWO_32, Pow2(s));
    Pow2Add(32, s);
  }

  // Removing the trailing zeros of the divisor is paid for by a longer shift.
  lemma QuotientOfEvenDivisor(a: Algorithm, d: u32, m: u32, s: nat, z: nat, t: u32)
    requires a == MultipleShift || a == MultipleAddShift
    requires t > 0 && d == t * Pow2(z) && s + z < 32
    requires forall x: u32 :: Quotient(a, t, m, s, x) == x / t
    ensures Exact(d, a, m, s + z)
  {
    MulLe(1, t, Pow2(z));
    forall x: u32 ensures Quotient(a, d, m, s + z, x) == x / d {
      assert Quotient(a, t, m, s, x) == x / t;
      DivDiv(x, t, Pow2(z));
      var high := if a == MultipleShift then Product(x, m) / TWO_32 else CarriedHigh(Product(x, m), m);
      ShiftTwice(high, s, z);
    }
  }

  lemma ShiftTwice(x: nat, s: nat, z: nat)
    ensures ShiftRight(ShiftRight(x, s), z) == ShiftRight(x, s + z)
  {
    Pow2Add(s, z);
    DivDiv(x, Pow2(s), Pow2(z));
  }

  // ---------------------------------------------------------------- the searches

  /** Position of the highest set bit; 0 for an argument of 0. */
  method Log2(i: u32) returns (t: u32)
    ensures i > 0 ==> Pow2(t) <= i < Pow2(t + 1)
    ensures i == 0 ==> t == 0
    ensures t < 32
  {
    t := 0;
    var rest := i / 2;
    while rest > 0
      invariant i == 0 ==> rest == 0 && t == 0
      invariant rest * Pow2(t + 1) <= i < (rest + 1) * Pow2(t + 1)
      invariant i > 0 ==> Pow2(t) <= i
      invariant t < 32
    {
      assert Pow2(t + 2) == 2 * Pow2(t + 1);
      HalvingKeepsBracket(rest, Pow2(t + 1), i);
      MulLe(1, rest, Pow2(t + 1));
      if t >= 31 {
        Pow2Constants();
        Pow2Monotone(32, t + 1);
      }
      rest := rest / 2;
      t := t + 1;
    }
  }

  lemma HalvingKeepsBracket(rest: nat, p: nat, i: nat)
    requires rest * p <= i < (rest + 1) * p
    ensures rest / 2 * (2 * p) <= i < (rest / 2 + 1) * (2 * p)
  {
    var h := rest / 2;
    MulLe(2 * h, rest, p);
    MulLe(rest + 1, 2 * h + 2, p);
    assert h * (2 * p) == 2 * h * p;
    assert (h + 1) * (2 * p) == (2 * h + 2) * p;
  }

  /** Divides out the factors of two. */
  method OddPart(divisor: u32) returns (t: u32, zeros: u32)
    requires divisor > 0
    ensures t % 2 == 1 && divisor == t * Pow2(zeros)
  {
    zeros, t := 0, divisor;
    while t % 2 == 0
      invariant 0 < t && divisor == t * Pow2(zeros)
      invariant zeros < TWO_32 - t
      decreases t
    {
      var half := t / 2;
      assert t * Pow2(zeros) == half * (2 * Pow2(zeros));
      t := half;
      zeros := zeros + 1;
    }
  }

  lemma InitialBracket(t: nat, s: nat, l: nat)
    requires t % 2 == 1 && 3 <= t < 0x8000_0000
    requires Pow2(s) <= t < Pow2(s + 1) && l == s + 1
    ensures LargestMultiple(t) > 0
    ensures var P := Pow2(32 + l);
            var mHigh := (P + P / LargestMultiple(t)) / t;
            P / t < mHigh && RoundsUp(mHigh, t, P)
  {
    LargestMultipleFacts(t);
    var P, c := Pow2(32 + l), LargestMultiple(t);
    InitialErrorIsLarge(t, l, c);
    var k := P / c;
    DivMod(P, c);
    DivMod(P, t);
    DivMonotone(P + t, P + k, t);
    QuotientUnique(P + t, t, P / t + 1);
    var m := (P + k) / t;
    DivMod(P + k, t);
    AboveFloor(t, 32 + l, m);
    MulLe(m * t - P, k, c);
  }

  lemma InitialErrorIsLarge(t: nat, l: nat, c: nat)
    requires 0 < t < Pow2(l) && 0 < c < TWO_32
    ensures Pow2(32 + l) / c >= t
  {
    var P := Pow2(32 + l);
    Pow2Constants();
    Pow2Add(32, l);
    MulLe(t, Pow2(l), TWO_32);
    MulLe(c, TWO_32, t);
    DivMod(P, c);
    CancelLt(t, P / c + 1, c);
  }

  lemma AboveFloor(t: nat, n: nat, m: nat)
    requires t > 0
    requires Pow2(n) / t < m
    ensures m * t > Pow2(n)
  {
    DivMod(Pow2(n), t);
    MulLe(Pow2(n) / t + 1, m, t);
  }

  lemma HalvingStep(t: nat, n: nat, mLow: nat, mHigh: nat)
    requires t % 2 == 1 && 3 <= t < 0x8000_0000 && n > 0
    requires mLow == Pow2(n) / t && RoundsUp(mHigh, t, Pow2(n))
    requires mLow / 2 < mHigh / 2
    ensures mLow / 2 == Pow2(n - 1) / t && RoundsUp(mHigh / 2, t, Pow2(n - 1))
  {
    HalvedFloor(t, n);
    AboveFloor(t, n - 1, mHigh / 2);
    LargestMultipleFacts(t);
    HalvedError(mHigh, t, Pow2(n - 1), LargestMultiple(t));
  }

  lemma HalvedFloor(t: nat, n: nat)
    requires t > 0 && n > 0
    ensures Pow2(n) / t / 2 == Pow2(n - 1) / t
  {
    DivDiv(Pow2(n), t, 2);
    DivDiv(Pow2(n), 2, t);
  }

  lemma HalvedError(m: nat, t: nat, P: nat, c: nat)
    requires (m * t - 2 * P) * c <= 2 * P
    ensures (m / 2 * t - P) * c <= P
  {
    var h := m / 2;
    MulLe(2 * h, m, t);
    Swap(2, h, t);
    MulLe(2 * (h * t - P), m * t - 2 * P, c);
    Swap(2, h * t - P, c);
  }

  // At shift 0 the excess of the multiplier is exactly one, so it is odd.
  lemma OddAtShiftZero(t: nat, m: nat)
    requires t % 2 == 1 && 3 <= t < 0x8000_0000
    requires RoundsUp(m, t, TWO_32)
    ensures m % 2 == 1
  {
    LargestMultipleFacts(t);
    var e := m * t - TWO_32;
    if e >= 2 {
      MulLe(2, e, LargestMultiple(t));
    }
    if m % 2 == 0 {
      EvenTimes(m, t);
    }
  }

  lemma EvenTimes(m: nat, t: nat)
    requires m % 2 == 0
    ensures m * t % 2 == 0
  {
    var k := m / 2 * t;
    Swap(2, m / 2, t);
    assert m * t == 2 * k;
  }

  // A multiplier of 33 bits can only be the one the search started from.
  lemma WideMultiplierMeansNoHalving(t: nat, s: nat, l: nat, m: nat)
    requires t % 2 == 1 && 3 <= t < 0x8000_0000
    requires Pow2(s) <= t && l <= s + 1
    requires RoundsUp(m, t, Pow2(32 + l)) && m >= TWO_32
    ensures l == s + 1
  {
    if l <= s {
      var c := LargestMultiple(t);
      LargestMultipleFacts(t);
      Pow2Constants();
      Pow2Add(32, l);
      Pow2Monotone(l, s);
      OddDoesNotDividePow2(t, 1, l);
      var P := Pow2(32 + l);
      MulLe(Pow2(l) + 1, t, TWO_32);
      MulLe(TWO_32, m, t);
      MulLe(TWO_32, m * t - P, c);
      MulLe(Pow2(l) + 1, c, TWO_32);
    }
  }

  // When not even one halving is possible, the remainder of the coarser power is small.
  lemma NoHalvingMeansSmallRemainder(t: nat, s: nat)
    requires t % 2 == 1 && 3 <= t < 0x8000_0000
    requires Pow2(s) <= t < Pow2(s + 1) && LargestMultiple(t) > 0
    requires var P := Pow2(32 + (s + 1));
             P / t / 2 >= (P + P / LargestMultiple(t)) / t / 2
    ensures 0 < Pow2(32 + s) % t < t - Pow2(s)
  {
    var P, H, c := Pow2(32 + (s + 1)), Pow2(32 + s), LargestMultiple(t);
    LargestMultipleFacts(t);
    InitialBracket(t, s, s + 1);
    HalvedFloor(t, 32 + (s + 1));
    var k := P / c;
    DivMod(P, c);
    DivMod(H, t);
    DivMod(P, t);
    DivMod(P + k, t);
    OddDoesNotDividePow2(t, H / t, 32 + s);
    InitialErrorAtLeast(s, c);
    Distribute(2 * (H / t), 1, t);
    Swap(2, H / t, t);
    RemainderFromBracket(H, k, t, H / t, H % t, (P + k) / t, (P + k) % t);
  }

  lemma InitialErrorAtLeast(s: nat, c: nat)
    requires 0 < c < TWO_32
    ensures Pow2(32 + (s + 1)) / c >= Pow2(s + 1)
  {
    Pow2Constants();
    Pow2Add(32, s + 1);
    MulLe(c, TWO_32, Pow2(s + 1));
    DivMod(Pow2(32 + (s + 1)), c);
    CancelLt(Pow2(s + 1), Pow2(32 + (s + 1)) / c + 1, c);
  }

  lemma RemainderFromBracket(H: nat, k: nat, t: nat, h: nat, r: nat, m: nat, u: nat)
    requires H == h * t + r && 2 * H + k == m * t + u && u < t && m == 2 * h + 1
    ensures 2 * r + k < 2 * t
  {
    Distribute(2 * h, 1, t);
    Swap(2, h, t);
  }

  lemma SmallRemainderRoundsDown(t: nat, s: nat)
    requires Pow2(s) <= t < Pow2(s + 1)
    requires 0 < Pow2(32 + s) % t < t - Pow2(s)
    ensures RoundsDown(Pow2(32 + s) / t, t, Pow2(32 + s))
    ensures Pow2(32 + s) / t < TWO_32
    ensures Pow2(32 + s) % t < t / 2 + 1
    ensures Pow2(32 + s) - Pow2(32 + s) / t * t == Pow2(32 + s) % t < Pow2(s)
  {
    var P := Pow2(32 + s);
    var m, r := P / t, P % t;
    DivMod(P, t);
    Pow2Constants();
    Pow2Add(32, s);
    MulLe(r, Pow2(s), TWO_32);
    MulLe(Pow2(s), t, TWO_32);
    CancelLt(m, TWO_32, t);
  }

  // Fewer trailing zeros than shift positions: the reduction loop stops in time.
  lemma FewTrailingZeros(m: nat, t: nat, s: nat, n: nat)
    requires s + 1 <= n
    requires 0 < Pow2(n) - m * t < Pow2(s)
    ensures m % Pow2(s + 1) != 0
  {
    if m % Pow2(s + 1) == 0 {
      DivMod(m, Pow2(s + 1));
      Pow2Add(s + 1, n - (s + 1));
      CommonFactor(m / Pow2(s + 1), Pow2(n - (s + 1)), t, Pow2(s + 1));
    }
  }

  // A positive difference of two multiples of p is at least p.
  lemma CommonFactor(u: nat, v: nat, t: nat, p: nat)
    requires 0 < p * v - u * p * t
    ensures p * v - u * p * t >= p
  {
    Swap(u, p, t);
    Distribute(v, u * t, p);
    CancelLt(0, v - u * t, p);
    MulLe(1, v - u * t, p);
  }

  /** The two multipliers the first search starts from: the floor of 2^n/t and a slightly larger one. */
  method InitialMultipliers(t: u32, s: u32) returns (mLow: u64, mHigh: u64)
    requires t % 2 == 1 && 3 <= t < 0x8000_0000
    requires Pow2(s) <= t < Pow2(s + 1)
    ensures LargestMultiple(t) > 0
    ensures var P := Pow2(32 + (s + 1));
            mLow == P / t && mHigh == (P + P / LargestMultiple(t)) / t
  {
    var j: u64 := (TWO_32 - 1) % t;
    LargestMultipleFacts(t);
    SearchFits(t, s);
    var power: u64 := Pow2(32 + (s + 1));
    DivideShrinks(power, TWO_32 - 1 - j);
    var k: u64 := power / (TWO_32 - 1 - j);
    DivideShrinks(power, t);
    mLow := power / t;
    DivideByThree(power + k, t);
    mHigh := (power + k) / t;
  }

  lemma DivideShrinks(x: nat, d: nat)
    requires d > 0
    ensures 0 <= x / d <= x
  {
    DivMod(x, d);
    MulLe(1, d, x / d);
  }

  lemma DivideByThree(x: nat, d: nat)
    requires d >= 3
    ensures 0 <= 3 * (x / d) <= x
  {
    DivMod(x, d);
    MulLe(3, d, x / d);
  }

  /** The state of the first search: `mLow` is the floor of 2^n/t and `mHigh` rounds it up. */
  predicate Bracket(t: nat, n: nat, mLow: nat, mHigh: nat)
    requires t > 0
  {
    mLow == Pow2(n) / t && mLow < mHigh && RoundsUp(mHigh, t, Pow2(n))
  }

  lemma BracketHalves(t: nat, n: nat, mLow: nat, mHigh: nat)
    requires t % 2 == 1 && 3 <= t < 0x8000_0000 && n > 0
    requires Bracket(t, n, mLow, mHigh) && mLow / 2 < mHigh / 2
    ensures Bracket(t, n - 1, mLow / 2, mHigh / 2)
  {
    HalvingStep(t, n, mLow, mHigh);
  }

  // What the search has found when it stops.
  lemma SearchStops(t: nat, s: nat, l: nat, mLow: nat, mHigh: nat)
    requires t % 2 == 1 && 3 <= t < 0x8000_0000
    requires Pow2(s) <= t < Pow2(s + 1) && l <= s + 1 && LargestMultiple(t) > 0
    requires Bracket(t, 32 + l, mLow, mHigh)
    requires l == s + 1 ==> mHigh == (Pow2(32 + l) + Pow2(32 + l) / LargestMultiple(t)) / t
    requires mLow / 2 >= mHigh / 2 || l == 0
    ensures mHigh < TWO_32 ==> mHigh % 2 == 1
    ensures mHigh >= TWO_32 ==> l == s + 1 && 0 < Pow2(32 + s) % t < t - Pow2(s)
  {
    if l == 0 {
      Pow2Constants();
      OddAtShiftZero(t, mHigh);
    } else {
      assert mHigh % 2 == 1;
    }
    if mHigh >= TWO_32 {
      WideMultiplierMeansNoHalving(t, s, l, mHigh);
      NoHalvingMeansSmallRemainder(t, s);
    }
  }

  /** The first search: shift `l` and a multiplier that rounds 2^(32+l)/t up. */
  method SearchRoundUp(t: u32, s: u32) returns (l: u32, mHigh: u64)
    requires t % 2 == 1 && 3 <= t < 0x8000_0000
    requires Pow2(s) <= t < Pow2(s + 1)
    ensures l <= s + 1
    ensures RoundsUp(mHigh, t, Pow2(32 + l))
    ensures mHigh < TWO_32 ==> mHigh % 2 == 1
    ensures mHigh >= TWO_32 ==> l == s + 1 && 0 < Pow2(32 + s) % t < t - Pow2(s)
  {
    SearchFits(t, s);
    l := s + 1;
    var mLow: u64;
    mLow, mHigh := InitialMultipliers(t, s);
    ghost var high0 := mHigh;
    InitialBracket(t, s, l);
    while mLow / 2 < mHigh / 2 && l > 0
      invariant l <= s + 1
      invariant Bracket(t, 32 + l, mLow, mHigh)
      invariant l == s + 1 ==> mHigh == high0
    {
      BracketHalves(t, 32 + l, mLow, mHigh);
      mLow := mLow / 2;
      mHigh := mHigh / 2;
      l := l - 1;
    }
    SearchStops(t, s, l, mLow, mHigh);
  }

  lemma SearchFits(t: nat, s: nat)
    requires 3 <= t < 0x8000_0000 && Pow2(s) <= t
    ensures s <= 30
    ensures Pow2(32 + (s + 1)) <= TWO_64 / 2
  {
    Pow2Constants();
    if s > 30 {
      Pow2Monotone(31, s);
    }
    Pow2Add(32, s + 1);
    Pow2Monotone(s + 1, 31);
    MulLe(Pow2(s + 1), 0x8000_0000, TWO_32);
  }

  /** Halves an even multiplier, giving back one shift position each time. */
  method ReduceMultiplier(multiplier: u32, shift: u32) returns (m: u32, s: u32)
    requires multiplier % Pow2(shift + 1) != 0
    ensures s <= shift && m % 2 == 1 && multiplier == m * Pow2(shift - s)
  {
    m, s := multiplier, shift;
    while m % 2 == 0
      invariant s <= shift && multiplier == m * Pow2(shift - s)
      invariant m % Pow2(s + 1) != 0
      decreases m
    {
      EvenMultiplier(m, s);
      Swap(m / 2, 2, Pow2(shift - s));
      m := m / 2;
      s := s - 1;
    }
  }

  lemma EvenMultiplier(m: nat, s: nat)
    requires m % 2 == 0 && m % Pow2(s + 1) != 0
    ensures m > 0 && s > 0 && m / 2 % Pow2(s) != 0
  {
    var p := Pow2(s);
    assert Pow2(s + 1) == 2 * p;
    if m / 2 % p == 0 {
      DivMod(m / 2, p);
      var q := m / 2 / p;
      Swap(q, 2, p);
      ExactQuotient(q, 2 * p);
    }
  }

  // Reducing the multiplier and the shift together changes no quotient.
  lemma ReductionKeepsQuotient(a: Algorithm, t: u32, m0: u32, s0: u32, m: u32, s: u32)
    requires a == MultipleShift || a == MultipleAddShift
    requires s <= s0 && m0 == m * Pow2(s0 - s) && t > 0
    requires forall x: u32 :: Quotient(a, t, m0, s0, x) == x / t
    ensures forall x: u32 :: Quotient(a, t, m, s, x) == x / t
  {
    forall x: u32 ensures Quotient(a, t, m, s, x) == x / t {
      assert Quotient(a, t, m0, s0, x) == x / t;
      if a == MultipleShift {
        MultipleShiftEvaluates(t, m0, s0, x);
        MultipleShiftEvaluates(t, m, s, x);
        ReducedProduct(x, m, s, s0 - s);
      } else {
        MultipleAddShiftEvaluates(t, m0, s0, x);
        MultipleAddShiftEvaluates(t, m, s, x);
        ReducedProduct(x + 1, m, s, s0 - s);
      }
    }
  }

  lemma ReducedProduct(y: nat, m: nat, s: nat, n: nat)
    ensures y * (m * Pow2(n)) >= 0 && y * m >= 0
    ensures y * (m * Pow2(n)) / Pow2(32 + (s + n)) == y * m / Pow2(32 + s)
  {
    var p := Pow2(n);
    Positive(y, m);
    Swap(y, m, p);
    ExactQuotient(y * m, p);
    Pow2Add(n, 32 + s);
    assert n + (32 + s) == 32 + (s + n);
    DivDiv((y * m) * p, p, Pow2(32 + s));
  }

  lemma ShiftFits(d: nat, t: nat, z: nat, s: nat)
    requires d == t * Pow2(z) && d < 0x8000_0000 && Pow2(s) <= t
    ensures s + 1 + z <= 31
  {
    Pow2Add(s, z);
    MulLe(Pow2(s), t, Pow2(z));
    Pow2Constants();
    if s + z >= 31 {
      Pow2Monotone(31, s + z);
    }
  }

  /** The second search rounds the multiplier to the nearest integer. */
  function NearestMultiplier(mLow: u64, r: u32, t: u32): u32 {
    if r < t / 2 + 1 then mLow % TWO_32 else (mLow % TWO_32 + 1) % TWO_32
  }

  /** The second search, when a 33-bit multiplier would have been needed. */
  method SearchNearest(t: u32, s: u32) returns (multiplier: u32)
    requires 3 <= t < 0x8000_0000
    requires Pow2(s) <= t < Pow2(s + 1)
    requires 0 < Pow2(32 + s) % t < t - Pow2(s)
    ensures multiplier == Pow2(32 + s) / t
  {
    SearchFits(t, s);
    var power: u64 := Pow2(32 + s);
    DivideShrinks(power, t);
    DivMod(power, t);
    var mLow: u64, r: u32 := power / t, power % t;
    multiplier := NearestMultiplier(mLow, r, t);
    SmallRemainderRoundsDown(t, s);
  }

  lemma RoundUpParametersExact(t: u32, m: u32, l: u32)
    requires t % 2 == 1 && 3 <= t < 0x8000_0000 && RoundsUp(m, t, Pow2(32 + l))
    ensures forall x: u32 :: Quotient(MultipleShift, t, m, l, x) == x / t
  {
    forall x: u32 ensures Quotient(MultipleShift, t, m, l, x) == x / t {
      MultipleShiftEvaluates(t, m, l, x);
      RoundUpExact(x, m, t, Pow2(32 + l));
    }
  }

  lemma RoundDownParametersExact(t: u32, m: u32, s: u32)
    requires t > 0 && RoundsDown(m, t, Pow2(32 + s))
    ensures forall x: u32 :: Quotient(MultipleAddShift, t, m, s, x) == x / t
  {
    forall x: u32 ensures Quotient(MultipleAddShift, t, m, s, x) == x / t {
      MultipleAddShiftEvaluates(t, m, s, x);
      RoundDownExact(x, m, t, Pow2(32 + s));
    }
  }

  /** Both searches together: parameters that are exact for the odd part, before reduction. */
  method SearchMultiplier(t: u32) returns (a: Algorithm, multiplier: u32, shift: u32, ghost s: u32)
    requires t % 2 == 1 && 3 <= t < 0x8000_0000
    ensures Pow2(s) <= t && shift <= s + 1
    ensures a == MultipleShift || a == MultipleAddShift
    ensures multiplier % Pow2(shift + 1) != 0
    ensures forall x: u32 :: Quotient(a, t, multiplier, shift, x) == x / t
  {
    var log := Log2(t);
    s := log;
    var l, mHigh := SearchRoundUp(t, log);
    if mHigh / TWO_32 == 0 {
      a, multiplier, shift := MultipleShift, mHigh, l;
      OddHasNoTrailingZeros(multiplier, shift + 1);
      RoundUpParametersExact(t, multiplier, shift);
    } else {
      shift := log;
      multiplier := SearchNearest(t, shift);
      a := MultipleAddShift;
      SmallRemainderRoundsDown(t, shift);
      FewTrailingZeros(multiplier, t, shift, 32 + shift);
      RoundDownParametersExact(t, multiplier, shift);
    }
  }

  lemma OddHasNoTrailingZeros(m: nat, n: nat)
    requires m % 2 == 1 && n > 0
    ensures m % Pow2(n) != 0
  {
    DivMod(m, Pow2(n));
    var q, h := m / Pow2(n), Pow2(n - 1);
    DoubleFactor(q, h);
    assert q * Pow2(n) == 2 * (q * h);
  }

  lemma CompareExact(d: u32, m: u32, s: u32)
    requires d >= 0x8000_0000
    ensures Exact(d, Compare, m, s)
  {
    forall x: u32 ensures Quotient(Compare, d, m, s, x) == x / d {
      QuotientUnique(x, d, if x >= d then 1 else 0);
    }
  }

  lemma ShiftExact(d: u32, z: u32)
    requires d == Pow2(z)
    ensures Exact(d, Shift, 1, z)
  {
  }

  /**
   The whole parameter search. `a0`, `m0` and `s0` are what the three output
   locations held before the call.
   */
  method DetectAlgorithm(divisor: u32, a0: Algorithm, m0: u32, s0: u32)
    returns (ok: bool, a: Algorithm, multiplier: u32, shift: u32)
    ensures ok <==> divisor != 0
    ensures !ok ==> a == a0 && multiplier == m0 && shift == s0
    ensures ok ==> Exact(divisor, a, multiplier, shift)
    ensures ok && a != Compare ==> shift <= 31 && multiplier % 2 == 1
  {
    ok, a, multiplier, shift := false, a0, m0, s0;
    if divisor == 0 {
      return;
    }
    ok := true;
    if divisor >= 0x8000_0000 {
      a := Compare;
      CompareExact(divisor, multiplier, shift);
      return;
    }
    var t, zeros := OddPart(divisor);
    MulLe(1, Pow2(zeros), t);
    if t == 1 {
      a, multiplier, shift := Shift, 1, zeros;
      ShiftExact(divisor, zeros);
      ShiftFits(divisor, 1, zeros, 0);
      return;
    }
    ghost var s;
    a, multiplier, shift, s := SearchMultiplier(t);
    ghost var wide, far := multiplier, shift;
    multiplier, shift := ReduceMultiplier(multiplier, shift);
    ReductionKeepsQuotient(a, t, wide, far, multiplier, shift);
    ShiftFits(divisor, t, zeros, s);
    QuotientOfEvenDivisor(a, divisor, multiplier, shift, zeros, t);
    shift := shift + zeros;
  }

  /** A divisor with its search result, as the class of base/uint32_divisor.h keeps it. */
  class UInt32Divisor {
    var divisor: u32
    var algorithm: Algorithm
    var multiplier: u32
    var shift: u32

    ghost predicate Valid()
      reads this
    {
      || algorithm == Invalid
      || (Exact(divisor, algorithm, multiplier, shift) && (algorithm != Compare ==> shift <= 31))
    }

    constructor ()
      ensures Valid() && algorithm == Invalid && divisor == 0
    {
      divisor, algorithm, multiplier, shift := 0, Invalid, 0, 0;
    }

    method SetValue(newDivisor: u32) returns (ok: bool)
      requires Valid()
      modifies this
      ensures Valid()
      ensures ok <==> newDivisor != 0
      ensures ok ==> divisor == newDivisor && algorithm != Invalid
      ensures !ok ==> unchanged(this)
    {
      var a, m, s;
      ok, a, m, s := DetectAlgorithm(newDivisor, algorithm, multiplier, shift);
      algorithm, multiplier, shift := a, m, s;
      if ok {
        divisor := newDivisor;
      }
    }

    function Divide(dividend: u32): (q: u32)
      reads this
      requires Valid() && algorithm != Invalid
      ensures q == dividend / divisor
    {
      assert Quotient(algorithm, divisor, multiplier, shift, dividend) == dividend / divisor;
      DivideShrinks(dividend, divisor);
      Quotient(algorithm, divisor, multiplier, shift, dividend)
    }

    function Modulu(dividend: u32): (r: u32)
      reads this
      requires Valid() && algorithm != Invalid
      ensures r == dividend % divisor
    {
      DivMod(dividend, divisor);
      Positive(Divide(dividend), divisor);
      (dividend - Product(Divide(dividend), divisor) % TWO_32) % TWO_32
    }
  }
}
