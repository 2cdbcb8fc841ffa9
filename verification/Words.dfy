/**
 64-bit machine words and their bits. A word is a number below 2^64; the bitwise
 operators combine two words bit by bit, and shifts are repeated doublings, with
 the overflow dropped, or halvings.
 */
module Words {
  import opened Powers

  const WORD_BITS: nat := 64
  const ALL_SET: u64 := 0xFFFF_FFFF_FFFF_FFFF

  type Word = u64

  function Bit(w: nat, i: nat): bool {
    if i == 0 then w % 2 == 1 else Bit(w / 2, i - 1)
  }

  /** The n-bit number whose bits are f of the bits of a and b. */
  function Zip(f: (bool, bool) -> bool, a: nat, b: nat, n: nat): (r: nat)
    ensures r < Pow2(n)
  {
    if n == 0 then 0 else 2 * Zip(f, a / 2, b / 2, n - 1) + One(f(a % 2 == 1, b % 2 == 1))
  }

  function And(a: Word, b: Word): (r: Word) { Pow2Of64(); Zip((x, y) => x && y, a, b, WORD_BITS) }
  function Or(a: Word, b: Word): (r: Word) { Pow2Of64(); Zip((x, y) => x || y, a, b, WORD_BITS) }
  function Xor(a: Word, b: Word): (r: Word) { Pow2Of64(); Zip((x, y) => x != y, a, b, WORD_BITS) }
  function Not(a: Word): (r: Word) { ALL_SET - a }

  function Shl(w: Word, s: nat): (r: Word) {
    if s == 0 then w else 2 * Shl(w, s - 1) % TWO_64
  }

  function Shr(w: Word, s: nat): (r: Word) {
    if s == 0 then w else Shr(w, s - 1) / 2
  }

  // ------------------------------------------------------------ bits

  lemma {:induction false} HighBits(w: nat, n: nat, i: nat)
    requires w < Pow2(n) && n <= i
    ensures !Bit(w, i)
  {
    if n > 0 {
      HighBits(w / 2, n - 1, i - 1);
    } else if i > 0 {
      HighBits(w / 2, 0, i - 1);
    }
  }

  lemma NoBitAbove(w: Word, i: nat)
    requires i >= WORD_BITS
    ensures !Bit(w, i)
  {
    Pow2Of64();
    HighBits(w, WORD_BITS, i);
  }

  lemma ZeroBit(i: nat)
    ensures !Bit(0, i)
  {
    HighBits(0, 0, i);
  }

  lemma {:induction false} ZipBit(f: (bool, bool) -> bool, a: nat, b: nat, n: nat, i: nat)
    requires i < n
    ensures Bit(Zip(f, a, b, n), i) == f(Bit(a, i), Bit(b, i))
  {
    if i == 0 {
    } else {
      ZipBit(f, a / 2, b / 2, n - 1, i - 1);
      assert Zip(f, a, b, n) / 2 == Zip(f, a / 2, b / 2, n - 1);
    }
  }

  lemma AndBit(a: Word, b: Word, i: nat)
    requires i < WORD_BITS
    ensures Bit(And(a, b), i) == (Bit(a, i) && Bit(b, i))
  {
    ZipBit((x, y) => x && y, a, b, WORD_BITS, i);
  }

  lemma OrBit(a: Word, b: Word, i: nat)
    requires i < WORD_BITS
    ensures Bit(Or(a, b), i) == (Bit(a, i) || Bit(b, i))
  {
    ZipBit((x, y) => x || y, a, b, WORD_BITS, i);
  }

  lemma XorBit(a: Word, b: Word, i: nat)
    requires i < WORD_BITS
    ensures Bit(Xor(a, b), i) == (Bit(a, i) != Bit(b, i))
  {
    ZipBit((x, y) => x != y, a, b, WORD_BITS, i);
  }

  lemma {:induction false} ComplementBit(w: nat, n: nat, i: nat)
    requires w < Pow2(n) && i < n
    ensures Bit(Pow2(n) - 1 - w, i) == !Bit(w, i)
  {
    HalvedComplement(w, Pow2(n - 1));
    if i == 0 {
    } else {
      ComplementBit(w / 2, n - 1, i - 1);
    }
  }

  lemma HalvedComplement(w: nat, p: nat)
    requires w < 2 * p
    ensures (2 * p - 1 - w) / 2 == p - 1 - w / 2 && ((2 * p - 1 - w) % 2 == 1 <==> w % 2 == 0)
  {
  }

  lemma NotBit(w: Word, i: nat)
    requires i < WORD_BITS
    ensures Bit(Not(w), i) == !Bit(w, i)
  {
    Pow2Of64();
    ComplementBit(w, WORD_BITS, i);
  }

  lemma AllSetBit(i: nat)
    requires i < WORD_BITS
    ensures Bit(ALL_SET, i)
  {
    NotBit(0, i);
    ZeroBit(i);
  }

  // ------------------------------------------------------------ shifts

  lemma {:induction false} ModBit(w: nat, n: nat, i: nat)
    requires i < n
    ensures w % Pow2(n) >= 0 && Bit(w % Pow2(n), i) == Bit(w, i)
  {
    DivMod(w, Pow2(n));
    HalfOfMod(w, Pow2(n - 1));
    if i == 0 {
    } else {
      ModBit(w / 2, n - 1, i - 1);
    }
  }

  lemma HalfOfMod(w: nat, p: nat)
    requires p > 0
    ensures w % (2 * p) >= 0 && w % (2 * p) / 2 == w / 2 % p && w % (2 * p) % 2 == w % 2
  {
    DivMod(w / 2, p);
    var q, r := w / 2 / p, w / 2 % p;
    DoubleFactor(q, p);
    QuotientUnique(w, 2 * p, q);
  }

  lemma {:induction false} ShlBit(w: Word, s: nat, i: nat)
    requires i < WORD_BITS
    ensures Bit(Shl(w, s), i) == (s <= i && Bit(w, i - s))
    decreases s
  {
    if s == 0 {
    } else {
      var half: nat := Shl(w, s - 1);
      Pow2Of64();
      ModBit(2 * half, WORD_BITS, i);
      if i > 0 {
        ShlBit(w, s - 1, i - 1);
        assert 2 * half / 2 == half;
      }
    }
  }

  lemma {:induction false} ShrBit(w: Word, s: nat, i: nat)
    ensures Bit(Shr(w, s), i) == Bit(w, i + s)
    decreases s
  {
    if s == 0 {
    } else {
      ShrBit(w, s - 1, i + 1);
    }
  }

  // The mask of one bit.
  lemma MaskBit(s: nat, i: nat)
    requires i < WORD_BITS
    ensures Bit(Shl(1, s), i) == (i == s)
  {
    ShlBit(1, s, i);
    if s < i {
      ZeroBit(i - s - 1);
    }
  }

  lemma HighMaskBit(s: nat, i: nat)
    requires i < WORD_BITS
    ensures Bit(Shl(ALL_SET, s), i) == (s <= i)
  {
    ShlBit(ALL_SET, s, i);
    if s <= i {
      AllSetBit(i - s);
    }
  }

  // Two ways to write the mask of the s lowest bits.
  lemma {:induction false} LowMasks(s: nat)
    requires s < WORD_BITS
    ensures Shl(1, s) == Pow2(s) && Shl(1, s) - 1 == Not(Shl(ALL_SET, s))
  {
    if s == 0 {
    } else {
      LowMasks(s - 1);
      PowFits(s);
    }
  }

  lemma PowFits(s: nat)
    requires s < WORD_BITS
    ensures Pow2(s) < TWO_64
  {
    Pow2Monotone(s, 63);
    Pow2Of64();
  }

  lemma LowMaskBit(s: nat, i: nat)
    requires s < WORD_BITS && i < WORD_BITS
    ensures Shl(1, s) > 0 && Bit(Shl(1, s) - 1, i) == (i < s)
    ensures Bit(Not(Shl(ALL_SET, s)), i) == (i < s)
  {
    LowMasks(s);
    NotBit(Shl(ALL_SET, s), i);
    HighMaskBit(s, i);
  }

  // ------------------------------------------------------------ the lowest set bit

  /** `__builtin_ctzl` of a non-zero word. */
  function TrailingZeros(w: Word): (i: nat)
    requires w != 0
    ensures i < WORD_BITS && Bit(w, i) && forall j :: 0 <= j < i ==> !Bit(w, j)
  {
    Pow2Of64();
    LowestWithin(w, WORD_BITS)
  }

  function LowestWithin(w: nat, n: nat): (i: nat)
    requires 0 < w < Pow2(n)
    ensures i < n && Bit(w, i) && forall j :: 0 <= j < i ==> !Bit(w, j)
    decreases n
  {
    if w % 2 == 1 then 0 else 1 + LowestWithin(w / 2, n - 1)
  }

  ghost predicate NoBits(w: nat) {
    forall i: nat :: i < WORD_BITS ==> !Bit(w, i)
  }

  // A word is zero exactly when no bit is set, and words with the same bits are the same.
  lemma ZeroWord(w: Word)
    ensures w == 0 <==> NoBits(w)
  {
    if w == 0 {
      forall i: nat | i < WORD_BITS ensures !Bit(w, i) {
        ZeroBit(i);
      }
    } else {
      assert Bit(w, TrailingZeros(w));
    }
  }

  lemma {:induction false} SameBitsWithin(a: nat, b: nat, n: nat)
    requires a < Pow2(n) && b < Pow2(n)
    requires forall i: nat :: i < n ==> Bit(a, i) == Bit(b, i)
    ensures a == b
  {
    if n == 0 {
    } else {
      forall i: nat | i < n - 1 ensures Bit(a / 2, i) == Bit(b / 2, i) {
        assert Bit(a, i + 1) == Bit(b, i + 1);
      }
      SameBitsWithin(a / 2, b / 2, n - 1);
      assert Bit(a, 0) == Bit(b, 0);
    }
  }

  lemma SameBits(a: Word, b: Word)
    requires forall i: nat :: i < WORD_BITS ==> Bit(a, i) == Bit(b, i)
    ensures a == b
  {
    Pow2Of64();
    SameBitsWithin(a, b, WORD_BITS);
  }

  lemma OneBitTest(w: Word, i: nat)
    requires i < WORD_BITS
    ensures And(w, Shl(1, i)) != 0 <==> Bit(w, i)
  {
    var v := And(w, Shl(1, i));
    forall j: nat | j < WORD_BITS ensures Bit(v, j) == (j == i && Bit(w, j)) {
      AndBit(w, Shl(1, i), j);
      MaskBit(i, j);
    }
    ZeroWord(v);
    assert Bit(v, i) == Bit(w, i);
  }

  // ------------------------------------------------------------ 32-bit words

  function Or32(a: u32, b: u32): (r: u32) { Pow2Constants(); Zip((x, y) => x || y, a, b, 32) }
  function Xor32(a: u32, b: u32): (r: u32) { Pow2Constants(); Zip((x, y) => x != y, a, b, 32) }

  // Where one operand has only zeros, or and xor are both addition.
  lemma {:induction false} ZipDisjoint(f: (bool, bool) -> bool, a: nat, b: nat, k: nat, n: nat)
    requires f(false, false) == false && f(true, false) && f(false, true)
    requires k <= n && a < Pow2(k) && b * Pow2(k) < Pow2(n)
    ensures Zip(f, a, b * Pow2(k), n) == a + b * Pow2(k)
  {
    if k == 0 {
      assert b * Pow2(k) == b;
      ZipZero(f, b, n);
    } else {
      var half := b * Pow2(k - 1);
      DoubleFactor(b, Pow2(k - 1));
      assert b * Pow2(k) == 2 * half;
      ZipDisjoint(f, a / 2, b, k - 1, n - 1);
    }
  }

  lemma {:induction false} ZipZero(f: (bool, bool) -> bool, b: nat, n: nat)
    requires f(false, false) == false && f(false, true)
    requires b < Pow2(n)
    ensures Zip(f, 0, b, n) == b
  {
    if n == 0 {
    } else {
      ZipZero(f, b / 2, n - 1);
    }
  }

  lemma {:induction false} XorAssociates(a: nat, b: nat, c: nat, n: nat)
    ensures var f := (x: bool, y: bool) => x != y;
            Zip(f, Zip(f, a, b, n), c, n) == Zip(f, a, Zip(f, b, c, n), n)
  {
    var f := (x: bool, y: bool) => x != y;
    if n == 0 {
    } else {
      XorAssociates(a / 2, b / 2, c / 2, n - 1);
      ZipParts(f, a, b, n);
      ZipParts(f, b, c, n);
    }
  }

  lemma ZipParts(f: (bool, bool) -> bool, a: nat, b: nat, n: nat)
    requires n > 0
    ensures Zip(f, a, b, n) / 2 == Zip(f, a / 2, b / 2, n - 1)
    ensures Zip(f, a, b, n) % 2 == 1 <==> f(a % 2 == 1, b % 2 == 1)
  {
  }

  lemma {:induction false} XorCommutes(a: nat, b: nat, n: nat)
    ensures var f := (x: bool, y: bool) => x != y;
            Zip(f, a, b, n) == Zip(f, b, a, n)
  {
    if n == 0 {
    } else {
      XorCommutes(a / 2, b / 2, n - 1);
    }
  }

  lemma Xor32Bit(a: u32, b: u32, i: nat)
    requires i < 32
    ensures Bit(Xor32(a, b), i) == (Bit(a, i) != Bit(b, i))
  {
    ZipBit((x, y) => x != y, a, b, 32, i);
  }

  lemma SameBits32(a: u32, b: u32)
    requires forall i: nat :: i < 32 ==> Bit(a, i) == Bit(b, i)
    ensures a == b
  {
    Pow2Constants();
    SameBitsWithin(a, b, 32);
  }

  lemma XorZero(c: u32)
    ensures Xor32(c, 0) == c && Xor32(0, c) == c
  {
    Pow2Constants();
    XorCommutes(c, 0, 32);
    ZipZero((x, y) => x != y, c, 32);
  }

  lemma XorTwice(a: u32, b: u32)
    ensures Xor32(Xor32(a, b), b) == a
  {
    forall i: nat | i < 32 ensures Bit(Xor32(Xor32(a, b), b), i) == Bit(a, i) {
      Xor32Bit(a, b, i);
      Xor32Bit(Xor32(a, b), b, i);
    }
    SameBits32(Xor32(Xor32(a, b), b), a);
  }

  lemma XorInjective(a: u32, b: u32, c: u32)
    requires Xor32(a, c) == Xor32(b, c)
    ensures a == b
  {
    XorTwice(a, c);
    XorTwice(b, c);
  }

  lemma XorOfXor(a: u32, b: u32)
    ensures Xor32(a, Xor32(a, b)) == b
  {
    XorCommutes(a, b, 32);
    XorCommutes(a, Xor32(a, b), 32);
    XorTwice(b, a);
  }

  lemma {:induction false} QuotientBit(w: nat, s: nat, i: nat)
    ensures w / Pow2(s) >= 0 && Bit(w / Pow2(s), i) == Bit(w, i + s)
    decreases s
  {
    DivMod(w, Pow2(s));
    if s == 0 {
    } else {
      DivDiv(w, 2, Pow2(s - 1));
      QuotientBit(w / 2, s - 1, i);
    }
  }

  /** q is a shifted down by s bits. */
  ghost predicate ShiftedDown(a: nat, q: nat, s: nat) {
    forall i: nat :: Bit(q, i) == Bit(a, i + s)
  }

  lemma QuotientShifts(a: nat, s: nat, q: nat)
    requires q == a / Pow2(s)
    ensures ShiftedDown(a, q, s)
  {
    forall i: nat ensures Bit(q, i) == Bit(a, i + s) {
      QuotientBit(a, s, i);
    }
  }

  // Combining a number with its own upper bits loses nothing: the bits are found from the top down.
  lemma {:induction false} XorShiftBits(a: u32, b: u32, qa: u32, qb: u32, s: nat, i: nat)
    requires s > 0 && i <= 32 && ShiftedDown(a, qa, s) && ShiftedDown(b, qb, s) && Xor32(a, qa) == Xor32(b, qb)
    ensures forall j: nat :: i <= j ==> Bit(a, j) == Bit(b, j)
    decreases 32 - i
  {
    if i == 32 {
      forall j: nat | 32 <= j ensures Bit(a, j) == Bit(b, j) {
        Pow2Constants();
        HighBits(a, 32, j);
        HighBits(b, 32, j);
      }
    } else {
      XorShiftBits(a, b, qa, qb, s, i + 1);
      Xor32Bit(a, qa, i);
      Xor32Bit(b, qb, i);
      assert Bit(qa, i) == Bit(a, i + s) && Bit(qb, i) == Bit(b, i + s);
    }
  }

  lemma XorShiftInjective(a: u32, b: u32, qa: u32, qb: u32, s: nat)
    requires s > 0 && qa == a / Pow2(s) && qb == b / Pow2(s) && Xor32(a, qa) == Xor32(b, qb)
    ensures a == b
  {
    QuotientShifts(a, s, qa);
    QuotientShifts(b, s, qb);
    XorShiftBits(a, b, qa, qb, s, 0);
    SameBits32(a, b);
  }
}
