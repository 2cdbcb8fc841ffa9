/**
 Bitmaps packed into 64-bit words, updated in place: container/bitmap.h and
 container/bitmap.cpp. A bitmap refines a sequence of booleans; the bits of the
 last word beyond the size are padding and stay zero.
 */
module Bitmap {
  import opened Powers
  import opened Sequences
  import opened Words

  function WordsFor(numBits: nat): nat { (numBits + WORD_BITS - 1) / WORD_BITS }

  /** Bit k of a packed sequence of words; false outside. */
  predicate BitAt(s: seq<Word>, k: nat) {
    k / WORD_BITS < |s| && Bit(s[k / WORD_BITS], k % WORD_BITS)
  }

  // ------------------------------------------------------------ words after a shift

  function LeftWord(s: seq<Word>, whole: nat, tail: nat, n: nat): Word
    requires n < |s| && tail < WORD_BITS
  {
    if n < whole then 0
    else if tail == 0 then s[n - whole]
    else if n == whole then Shl(s[0], tail)
    else Or(Shl(s[n - whole], tail), Shr(s[n - whole - 1], WORD_BITS - tail))
  }

  function RightWord(s: seq<Word>, whole: nat, tail: nat, n: nat): Word
    requires n < |s| && tail < WORD_BITS
  {
    if n + whole >= |s| then 0
    else if tail == 0 then s[n + whole]
    else if n + whole + 1 == |s| then Shr(s[n + whole], tail)
    else Or(Shr(s[n + whole], tail), Shl(s[n + whole + 1], WORD_BITS - tail))
  }

  // A left shift moves every bit up by the whole words and the odd bits together.
  lemma LeftWordBit(s: seq<Word>, whole: nat, tail: nat, n: nat, i: nat)
    requires n < |s| && tail < WORD_BITS && i < WORD_BITS
    ensures var k := WORD_BITS * n + i;
            var shift := WORD_BITS * whole + tail;
            Bit(LeftWord(s, whole, tail, n), i) == (shift <= k && BitAt(s, k - shift))
  {
    var k := WORD_BITS * n + i;
    var shift := WORD_BITS * whole + tail;
    if n < whole {
      ZeroBit(i);
    } else {
      if tail <= i {
        assert (k - shift) / WORD_BITS == n - whole && (k - shift) % WORD_BITS == i - tail;
      } else if n > whole {
        assert (k - shift) / WORD_BITS == n - whole - 1 && (k - shift) % WORD_BITS == WORD_BITS + i - tail;
      }
      if tail > 0 {
        ShlBit(s[n - whole], tail, i);
        if n > whole {
          ShrBit(s[n - whole - 1], WORD_BITS - tail, i);
          if tail <= i { NoBitAbove(s[n - whole - 1], i + (WORD_BITS - tail)); }
          OrBit(Shl(s[n - whole], tail), Shr(s[n - whole - 1], WORD_BITS - tail), i);
        }
      }
    }
  }

  lemma RightWordBit(s: seq<Word>, whole: nat, tail: nat, n: nat, i: nat)
    requires n < |s| && tail < WORD_BITS && i < WORD_BITS
    ensures Bit(RightWord(s, whole, tail, n), i) == BitAt(s, WORD_BITS * n + i + (WORD_BITS * whole + tail))
  {
    var k := WORD_BITS * n + i + (WORD_BITS * whole + tail);
    if i + tail < WORD_BITS {
      assert k / WORD_BITS == n + whole && k % WORD_BITS == i + tail;
    } else {
      assert k / WORD_BITS == n + whole + 1 && k % WORD_BITS == i + tail - WORD_BITS;
    }
    if n + whole >= |s| {
      ZeroBit(i);
    } else if tail > 0 {
      ShrBit(s[n + whole], tail, i);
      if i + tail >= WORD_BITS { NoBitAbove(s[n + whole], i + tail); }
      if n + whole + 1 < |s| {
        ShlBit(s[n + whole + 1], WORD_BITS - tail, i);
        OrBit(Shr(s[n + whole], tail), Shl(s[n + whole + 1], WORD_BITS - tail), i);
      }
    }
  }

  // ------------------------------------------------------------ in-place updates

  /** `s` with the bits of the last word at or beyond `size` cleared. */
  function Masked(s: seq<Word>, size: nat): seq<Word> {
    if size % WORD_BITS > 0 && size / WORD_BITS < |s|
    then s[size / WORD_BITS := And(s[size / WORD_BITS], Not(Shl(ALL_SET, size % WORD_BITS)))]
    else s
  }

  lemma MaskedBit(s: seq<Word>, size: nat, k: nat)
    requires |s| == WordsFor(size)
    ensures |Masked(s, size)| == |s|
    ensures BitAt(Masked(s, size), k) == (k < size && BitAt(s, k))
  {
    var n, i := k / WORD_BITS, k % WORD_BITS;
    if n == size / WORD_BITS && size % WORD_BITS > 0 {
      var mask := Not(Shl(ALL_SET, size % WORD_BITS));
      AndBit(s[n], mask, i);
      LowMaskBit(size % WORD_BITS, i);
    }
  }

  method MaskOffTailBits(words: array<Word>, size: nat)
    requires words.Length == WordsFor(size)
    modifies words
    ensures words[..] == Masked(old(words[..]), size)
  {
    var last, tail := size / WORD_BITS, size % WORD_BITS;
    if tail > 0 {
      words[last] := And(words[last], Not(Shl(ALL_SET, tail)));
    }
  }

  /** The left shifts that stay within the words: up to all of them. */
  predicate ShiftsWithin(shift: nat, length: nat) {
    shift / WORD_BITS < length || (length > 0 && shift == WORD_BITS * length)
  }

  method ShiftUpByWords(words: array<Word>, whole: nat)
    requires 0 < words.Length && whole <= words.Length
    modifies words
    ensures forall j :: whole <= j < words.Length ==> words[j] == LeftWord(old(words[..]), whole, 0, j)
  {
    ghost var s := words[..];
    var n := words.Length - 1;
    while n >= whole
      invariant whole - 1 <= n < words.Length
      invariant forall j :: n < j < words.Length ==> words[j] == s[j - whole]
      invariant forall j :: 0 <= j <= n ==> words[j] == s[j]
    {
      words[n] := words[n - whole];
      n := n - 1;
    }
  }

  method ShiftUpByBits(words: array<Word>, whole: nat, tail: nat)
    requires whole < words.Length && 0 < tail < WORD_BITS
    modifies words
    ensures forall j :: whole <= j < words.Length ==> words[j] == LeftWord(old(words[..]), whole, tail, j)
  {
    ghost var s := words[..];
    var n := words.Length - 1;
    while n > whole
      invariant whole <= n < words.Length
      invariant forall j :: n < j < words.Length ==> words[j] == LeftWord(s, whole, tail, j)
      invariant forall j :: 0 <= j <= n ==> words[j] == s[j]
    {
      words[n] := Or(Shl(words[n - whole], tail), Shr(words[n - whole - 1], WORD_BITS - tail));
      n := n - 1;
    }
    words[whole] := Shl(words[0], tail);
  }

  method ShiftWordsUp(words: array<Word>, shift: nat)
    requires 0 < shift && ShiftsWithin(shift, words.Length)
    modifies words
    ensures forall n :: 0 <= n < words.Length ==>
              words[n] == LeftWord(old(words[..]), shift / WORD_BITS, shift % WORD_BITS, n)
  {
    var whole, tail := shift / WORD_BITS, shift % WORD_BITS;
    if tail == 0 {
      ShiftUpByWords(words, whole);
    } else {
      ShiftUpByBits(words, whole, tail);
    }
    ghost var t := words[..];
    for n := 0 to whole
      invariant forall j :: 0 <= j < n ==> words[j] == 0
      invariant forall j :: whole <= j < words.Length ==> words[j] == t[j]
    {
      words[n] := 0;
    }
  }

  method DoLeftShift(words: array<Word>, numBits: nat, shift: nat)
    requires words.Length == WordsFor(numBits)
    requires 0 < shift && ShiftsWithin(shift, words.Length)
    modifies words
    ensures forall k: nat :: BitAt(words[..], k) == (shift <= k < numBits && BitAt(old(words[..]), k - shift))
  {
    ghost var s := words[..];
    ShiftWordsUp(words, shift);
    ghost var t := words[..];
    MaskOffTailBits(words, numBits);
    forall k: nat ensures BitAt(words[..], k) == (shift <= k < numBits && BitAt(s, k - shift)) {
      LeftShiftBit(s, t, numBits, shift, k);
    }
  }

  lemma LeftShiftBit(s: seq<Word>, t: seq<Word>, numBits: nat, shift: nat, k: nat)
    requires |s| == |t| == WordsFor(numBits)
    requires forall n :: 0 <= n < |t| ==> t[n] == LeftWord(s, shift / WORD_BITS, shift % WORD_BITS, n)
    ensures BitAt(Masked(t, numBits), k) == (shift <= k < numBits && BitAt(s, k - shift))
  {
    MaskedBit(t, numBits, k);
    var n, i := k / WORD_BITS, k % WORD_BITS;
    var whole, tail := shift / WORD_BITS, shift % WORD_BITS;
    assert k == WORD_BITS * n + i && shift == WORD_BITS * whole + tail;
    if n < |s| {
      LeftWordBit(s, whole, tail, n, i);
    }
  }

  method ShiftDownByWords(words: array<Word>, whole: nat)
    requires whole < words.Length
    modifies words
    ensures forall j :: 0 <= j < words.Length - whole ==> words[j] == RightWord(old(words[..]), whole, 0, j)
  {
    ghost var s := words[..];
    for n := 0 to words.Length - whole
      invariant forall j :: 0 <= j < n ==> words[j] == s[j + whole]
      invariant forall j :: n <= j < words.Length ==> words[j] == s[j]
    {
      words[n] := words[n + whole];
    }
  }

  method ShiftDownByBits(words: array<Word>, whole: nat, tail: nat)
    requires whole < words.Length && 0 < tail < WORD_BITS
    modifies words
    ensures forall j :: 0 <= j < words.Length - whole ==> words[j] == RightWord(old(words[..]), whole, tail, j)
  {
    ghost var s := words[..];
    var limit := words.Length - whole - 1;
    for n := 0 to limit
      invariant forall j :: 0 <= j < n ==> words[j] == RightWord(s, whole, tail, j)
      invariant forall j :: n <= j < words.Length ==> words[j] == s[j]
    {
      words[n] := Or(Shr(words[n + whole], tail), Shl(words[n + whole + 1], WORD_BITS - tail));
    }
    words[limit] := Shr(words[words.Length - 1], tail);
  }

  method ShiftWordsDown(words: array<Word>, shift: nat)
    requires 0 < shift && shift / WORD_BITS < words.Length
    modifies words
    ensures forall n :: 0 <= n < words.Length ==>
              words[n] == RightWord(old(words[..]), shift / WORD_BITS, shift % WORD_BITS, n)
  {
    var whole, tail := shift / WORD_BITS, shift % WORD_BITS;
    if tail == 0 {
      ShiftDownByWords(words, whole);
    } else {
      ShiftDownByBits(words, whole, tail);
    }
    ghost var t := words[..];
    for n := words.Length - whole to words.Length
      invariant forall j :: 0 <= j < words.Length - whole ==> words[j] == t[j]
      invariant forall j :: words.Length - whole <= j < n ==> words[j] == 0
    {
      words[n] := 0;
    }
  }

  method DoRightShift(words: array<Word>, shift: nat)
    requires 0 < shift && shift / WORD_BITS < words.Length
    modifies words
    ensures forall k: nat :: BitAt(words[..], k) == BitAt(old(words[..]), k + shift)
  {
    ghost var s := words[..];
    ShiftWordsDown(words, shift);
    forall k: nat ensures BitAt(words[..], k) == BitAt(s, k + shift) {
      RightShiftBit(s, words[..], shift, k);
    }
  }

  lemma RightShiftBit(s: seq<Word>, t: seq<Word>, shift: nat, k: nat)
    requires |s| == |t|
    requires forall n :: 0 <= n < |t| ==> t[n] == RightWord(s, shift / WORD_BITS, shift % WORD_BITS, n)
    ensures BitAt(t, k) == BitAt(s, k + shift)
  {
    var n, i := k / WORD_BITS, k % WORD_BITS;
    var whole, tail := shift / WORD_BITS, shift % WORD_BITS;
    assert k == WORD_BITS * n + i && shift == WORD_BITS * whole + tail;
    if n < |s| {
      RightWordBit(s, whole, tail, n, i);
    }
  }

  method DoAndWith(words: array<Word>, words2: array<Word>)
    requires words.Length == words2.Length
    modifies words
    ensures forall k: nat :: BitAt(words[..], k) == (BitAt(old(words[..]), k) && BitAt(old(words2[..]), k))
  {
    ghost var s, t := words[..], words2[..];
    for n := 0 to words.Length
      invariant forall j :: 0 <= j < n ==> words[j] == And(s[j], t[j])
      invariant forall j :: n <= j < words.Length ==> words[j] == s[j] && words2[j] == t[j]
    {
      words[n] := And(words[n], words2[n]);
    }
    forall k: nat ensures BitAt(words[..], k) == (BitAt(s, k) && BitAt(t, k)) {
      if k / WORD_BITS < |s| {
        AndBit(s[k / WORD_BITS], t[k / WORD_BITS], k % WORD_BITS);
      }
    }
  }

  method DoOrWith(words: array<Word>, words2: array<Word>)
    requires words.Length == words2.Length
    modifies words
    ensures forall k: nat :: BitAt(words[..], k) == (BitAt(old(words[..]), k) || BitAt(old(words2[..]), k))
  {
    ghost var s, t := words[..], words2[..];
    for n := 0 to words.Length
      invariant forall j :: 0 <= j < n ==> words[j] == Or(s[j], t[j])
      invariant forall j :: n <= j < words.Length ==> words[j] == s[j] && words2[j] == t[j]
    {
      words[n] := Or(words[n], words2[n]);
    }
    forall k: nat ensures BitAt(words[..], k) == (BitAt(s, k) || BitAt(t, k)) {
      if k / WORD_BITS < |s| {
        OrBit(s[k / WORD_BITS], t[k / WORD_BITS], k % WORD_BITS);
      }
    }
  }

  method DoXorWith(words: array<Word>, words2: array<Word>)
    requires words.Length == words2.Length
    modifies words
    ensures forall k: nat :: BitAt(words[..], k) == (BitAt(old(words[..]), k) != BitAt(old(words2[..]), k))
  {
    ghost var s, t := words[..], words2[..];
    for n := 0 to words.Length
      invariant forall j :: 0 <= j < n ==> words[j] == Xor(s[j], t[j])
      invariant forall j :: n <= j < words.Length ==> words[j] == s[j] && words2[j] == t[j]
    {
      words[n] := Xor(words[n], words2[n]);
    }
    forall k: nat ensures BitAt(words[..], k) == (BitAt(s, k) != BitAt(t, k)) {
      if k / WORD_BITS < |s| {
        XorBit(s[k / WORD_BITS], t[k / WORD_BITS], k % WORD_BITS);
      }
    }
  }

  method DoSetAt(words: array<Word>, index: nat)
    requires index / WORD_BITS < words.Length
    modifies words
    ensures forall k: nat :: BitAt(words[..], k) == (k == index || BitAt(old(words[..]), k))
  {
    ghost var s := words[..];
    var n, mask := index / WORD_BITS, Shl(1, index % WORD_BITS);
    words[n] := Or(words[n], mask);
    forall k: nat ensures BitAt(words[..], k) == (k == index || BitAt(s, k)) {
      if k / WORD_BITS == n {
        OrBit(s[n], mask, k % WORD_BITS);
        MaskBit(index % WORD_BITS, k % WORD_BITS);
      }
    }
  }

  method DoClearAt(words: array<Word>, index: nat)
    requires index / WORD_BITS < words.Length
    modifies words
    ensures forall k: nat :: BitAt(words[..], k) == (k != index && BitAt(old(words[..]), k))
  {
    ghost var s := words[..];
    var n, mask := index / WORD_BITS, Not(Shl(1, index % WORD_BITS));
    words[n] := And(words[n], mask);
    forall k: nat ensures BitAt(words[..], k) == (k != index && BitAt(s, k)) {
      if k / WORD_BITS == n {
        AndBit(s[n], mask, k % WORD_BITS);
        NotBit(Shl(1, index % WORD_BITS), k % WORD_BITS);
        MaskBit(index % WORD_BITS, k % WORD_BITS);
      }
    }
  }

  method DoSetAll(words: array<Word>, size: nat)
    requires words.Length == WordsFor(size)
    modifies words
    ensures forall k: nat :: BitAt(words[..], k) == (k < size)
  {
    for n := 0 to words.Length
      invariant forall j :: 0 <= j < n ==> words[j] == ALL_SET
    {
      words[n] := ALL_SET;
    }
    ghost var t := words[..];
    MaskOffTailBits(words, size);
    forall k: nat ensures BitAt(words[..], k) == (k < size) {
      MaskedBit(t, size, k);
      AllSetBit(k % WORD_BITS);
    }
  }

  // ------------------------------------------------------------ searches

  /** No bit from `from` up to `to` is set. */
  ghost predicate ClearBetween(s: seq<Word>, from: nat, to: nat) {
    forall k: nat :: from <= k < to ==> !BitAt(s, k)
  }

  /** r is the first set bit at or after `from`. */
  ghost predicate FirstSet(s: seq<Word>, from: nat, r: nat) {
    from <= r && BitAt(s, r) && ClearBetween(s, from, r)
  }

  /** No bit of the word from lo up to hi is set. */
  ghost predicate ClearInWord(w: Word, lo: nat, hi: nat) {
    forall i: nat :: lo <= i < hi ==> !Bit(w, i)
  }

  lemma Position(n: nat, i: nat)
    requires i < WORD_BITS
    ensures (WORD_BITS * n + i) / WORD_BITS == n && (WORD_BITS * n + i) % WORD_BITS == i
  {
  }

  lemma BitAtPosition(s: seq<Word>, n: nat, i: nat)
    requires n < |s| && i < WORD_BITS
    ensures BitAt(s, WORD_BITS * n + i) == Bit(s[n], i)
  {
    Position(n, i);
  }

  lemma ClearWordBits(s: seq<Word>, n: nat, lo: nat, hi: nat)
    requires n < |s| && hi <= WORD_BITS
    ensures ClearInWord(s[n], lo, hi) <==> ClearBetween(s, WORD_BITS * n + lo, WORD_BITS * n + hi)
  {
    if ClearInWord(s[n], lo, hi) {
      forall k: nat | WORD_BITS * n + lo <= k < WORD_BITS * n + hi ensures !BitAt(s, k) {
        Position(n, k - WORD_BITS * n);
      }
    } else {
      var i: nat :| lo <= i < hi && Bit(s[n], i);
      BitAtPosition(s, n, i);
    }
  }

  lemma ClearJoins(s: seq<Word>, a: nat, b: nat, c: nat)
    requires a <= b <= c
    ensures ClearBetween(s, a, c) <==> ClearBetween(s, a, b) && ClearBetween(s, b, c)
  {
  }

  lemma ZeroWordClear(s: seq<Word>, n: nat, from: nat)
    requires n < |s| && from <= WORD_BITS * n && s[n] == 0 && ClearBetween(s, from, WORD_BITS * n)
    ensures ClearBetween(s, from, WORD_BITS * (n + 1))
  {
    ZeroWord(s[n]);
    ClearWordBits(s, n, 0, WORD_BITS);
    ClearJoins(s, from, WORD_BITS * n, WORD_BITS * (n + 1));
  }

  lemma FirstInWord(s: seq<Word>, n: nat, from: nat)
    requires n < |s| && from <= WORD_BITS * n && s[n] != 0 && ClearBetween(s, from, WORD_BITS * n)
    ensures FirstSet(s, from, WORD_BITS * n + TrailingZeros(s[n]))
  {
    var z := TrailingZeros(s[n]);
    BitAtPosition(s, n, z);
    ClearWordBits(s, n, 0, z);
    ClearJoins(s, from, WORD_BITS * n, WORD_BITS * n + z);
  }

  /** The loop both searches share: the first set bit at or after word `first`. */
  method FindFromWord(words: array<Word>, first: nat, ghost from: nat) returns (found: bool, result: nat)
    requires from <= WORD_BITS * first && first <= words.Length && ClearBetween(words[..], from, WORD_BITS * first)
    ensures found ==> FirstSet(words[..], from, result)
    ensures !found ==> ClearBetween(words[..], from, WORD_BITS * words.Length)
  {
    found, result := false, 0;
    for i := first to words.Length
      invariant ClearBetween(words[..], from, WORD_BITS * i)
    {
      if words[i] != 0 {
        FirstInWord(words[..], i, from);
        return true, WORD_BITS * i + TrailingZeros(words[i]);
      }
      ZeroWordClear(words[..], i, from);
    }
  }

  method DoFindFirst(words: array<Word>) returns (found: bool, result: nat)
    ensures found ==> FirstSet(words[..], 0, result)
    ensures !found ==> ClearBetween(words[..], 0, WORD_BITS * words.Length)
  {
    found, result := FindFromWord(words, 0, 0);
  }

  lemma LowBitsMaskedOff(v: Word, b: nat, i: nat)
    requires i < WORD_BITS
    ensures Bit(And(v, Shl(ALL_SET, b)), i) == (b <= i && Bit(v, i))
  {
    AndBit(v, Shl(ALL_SET, b), i);
    HighMaskBit(b, i);
  }

  // The first word of FindNext: the bits below the bound are masked off.
  method FindInWord(w: Word, b: nat) returns (found: bool, z: nat)
    requires b < WORD_BITS
    ensures found ==> b <= z < WORD_BITS && Bit(w, z) && ClearInWord(w, b, z)
    ensures !found ==> ClearInWord(w, b, WORD_BITS)
  {
    var thisWord := And(w, Shl(ALL_SET, b));
    MaskedOff(w, b, thisWord);
    ZeroWord(thisWord);
    found := thisWord != 0;
    z := if found then TrailingZeros(thisWord) else 0;
  }

  lemma MaskedOff(w: Word, b: nat, masked: Word)
    requires masked == And(w, Shl(ALL_SET, b))
    ensures forall i: nat :: i < WORD_BITS ==> (Bit(masked, i) <==> b <= i && Bit(w, i))
  {
    forall i: nat | i < WORD_BITS ensures Bit(masked, i) <==> b <= i && Bit(w, i) {
      LowBitsMaskedOff(w, b, i);
    }
  }

  lemma FirstOfWord(s: seq<Word>, n: nat, b: nat, z: nat)
    requires n < |s| && b <= z < WORD_BITS && Bit(s[n], z) && ClearInWord(s[n], b, z)
    ensures FirstSet(s, WORD_BITS * n + b, WORD_BITS * n + z)
  {
    BitAtPosition(s, n, z);
    ClearWordBits(s, n, b, z);
  }

  method FindFrom(words: array<Word>, from: nat) returns (found: bool, result: nat)
    ensures found ==> FirstSet(words[..], from, result)
    ensures !found ==> ClearBetween(words[..], from, WORD_BITS * words.Length)
  {
    if from >= words.Length * WORD_BITS {
      return false, 0;
    }
    var i, b := from / WORD_BITS, from % WORD_BITS;
    assert WORD_BITS * i + b == from;
    found, result := FindInWord(words[i], b);
    if found {
      FirstOfWord(words[..], i, b, result);
      result := WORD_BITS * i + result;
    } else {
      ClearWordBits(words[..], i, b, WORD_BITS);
      found, result := FindFromWord(words, i + 1, from);
    }
  }

  /** `++prev` on a 64-bit number: the bound after the largest one is zero. */
  function NextBound(prev: u64): nat { (prev + 1) % TWO_64 }

  method DoFindNext(words: array<Word>, prev: u64) returns (found: bool, result: nat)
    ensures found ==> FirstSet(words[..], NextBound(prev), result)
    ensures !found ==> ClearBetween(words[..], NextBound(prev), WORD_BITS * words.Length)
  {
    found, result := FindFrom(words, NextBound(prev));
  }

  // ------------------------------------------------------------ ranges

  // The three tests of a part of a word: its top, its bottom, and a stretch inside it.
  lemma TopClear(w: Word, lo: nat)
    ensures Shr(w, lo) == 0 <==> ClearInWord(w, lo, WORD_BITS)
  {
    ZeroWord(Shr(w, lo));
    if ClearInWord(w, lo, WORD_BITS) {
      forall i: nat | i < WORD_BITS ensures !Bit(Shr(w, lo), i) {
        ShrBit(w, lo, i);
        if i + lo >= WORD_BITS { NoBitAbove(w, i + lo); }
      }
    }
    if Shr(w, lo) == 0 {
      forall i: nat | lo <= i < WORD_BITS ensures !Bit(w, i) {
        ShrBit(w, lo, i - lo);
      }
    }
  }

  lemma BottomClear(w: Word, hi: nat)
    requires hi < WORD_BITS
    ensures Shl(1, hi) > 0
    ensures var mask := Not(Shl(1, hi) - 1);
            Or(w, mask) == mask <==> ClearInWord(w, 0, hi)
  {
    LowMasks(hi);
    var mask := Not(Shl(1, hi) - 1);
    forall i: nat | i < WORD_BITS
      ensures Bit(Or(w, mask), i) == (Bit(w, i) || hi <= i) && Bit(mask, i) == (hi <= i)
    {
      OrBit(w, mask, i);
      NotBit(Shl(1, hi) - 1, i);
      LowMaskBit(hi, i);
    }
    if ClearInWord(w, 0, hi) {
      SameBits(Or(w, mask), mask);
    }
    if Or(w, mask) == mask {
      forall i: nat | i < hi ensures !Bit(w, i) {
        assert Bit(Or(w, mask), i) == Bit(mask, i);
      }
    }
  }

  lemma StretchClear(w: Word, lo: nat, hi: nat)
    requires lo < hi < WORD_BITS
    ensures Shl(Shr(w, lo), WORD_BITS - hi + lo) == 0 <==> ClearInWord(w, lo, hi)
  {
    var s := WORD_BITS - hi + lo;
    var v := Shl(Shr(w, lo), s);
    ZeroWord(v);
    forall i: nat | i < WORD_BITS ensures Bit(v, i) == (s <= i && Bit(w, i - s + lo)) {
      ShlBit(Shr(w, lo), s, i);
      if s <= i { ShrBit(w, lo, i - s); }
    }
    if v == 0 {
      forall i: nat | lo <= i < hi ensures !Bit(w, i) {
        assert !Bit(v, i - lo + s);
      }
    }
  }

  method DoAllAreClearInRange(words: array<Word>, start: nat, end: nat) returns (clear: bool)
    requires start < end <= WORD_BITS * words.Length
    ensures clear <==> ClearBetween(words[..], start, end)
  {
    var startWord, startBits := start / WORD_BITS, start % WORD_BITS;
    var endWord, endBits := end / WORD_BITS, end % WORD_BITS;
    ghost var s := words[..];
    if startWord != endWord {
      if startBits > 0 {
        TopClear(s[startWord], startBits);
        ClearWordBits(s, startWord, startBits, WORD_BITS);
        if Shr(words[startWord], startBits) != 0 {
          ClearJoins(s, start, WORD_BITS * (startWord + 1), end);
          return false;
        }
        startWord := startWord + 1;
      }
      clear := WordsClear(words, startWord, endWord, start, end);
      if !clear {
        return false;
      }
      ClearJoins(s, start, WORD_BITS * endWord, end);
      if endBits > 0 {
        BottomClear(s[endWord], endBits);
        ClearWordBits(s, endWord, 0, endBits);
        var mask := Not(Shl(1, endBits) - 1);
        if Or(words[endWord], mask) != mask {
          return false;
        }
      }
      return true;
    } else {
      StretchClear(s[startWord], startBits, endBits);
      ClearWordBits(s, startWord, startBits, endBits);
      return Shl(Shr(words[startWord], startBits), WORD_BITS - endBits + startBits) == 0;
    }
  }

  /** The middle of the range, word by word. */
  method WordsClear(words: array<Word>, first: nat, last: nat, ghost start: nat, ghost end: nat) returns (clear: bool)
    requires first <= last <= words.Length && start <= WORD_BITS * first && WORD_BITS * last <= end
    requires ClearBetween(words[..], start, WORD_BITS * first)
    ensures clear ==> ClearBetween(words[..], start, WORD_BITS * last)
    ensures !clear ==> !ClearBetween(words[..], start, end)
  {
    for i := first to last
      invariant ClearBetween(words[..], start, WORD_BITS * i)
    {
      if words[i] != 0 {
        FirstInWord(words[..], i, start);
        assert BitAt(words[..], WORD_BITS * i + TrailingZeros(words[..][i]));
        return false;
      }
      ZeroWordClear(words[..], i, start);
    }
    clear := true;
  }

  // ------------------------------------------------------------ the bitmap

  /** The first `size` bits as a sequence of booleans. */
  function BitsOf(s: seq<Word>, size: nat): (b: seq<bool>)
    ensures |b| == size && forall k :: 0 <= k < size ==> b[k] == BitAt(s, k)
  {
    seq(size, k requires 0 <= k => BitAt(s, k))
  }

  function Pointwise(f: (bool, bool) -> bool, a: seq<bool>, b: seq<bool>): seq<bool>
    requires |a| == |b|
  {
    seq(|a|, k requires 0 <= k < |a| => f(a[k], b[k]))
  }

  function ShiftedLeft(b: seq<bool>, shift: nat): seq<bool> {
    seq(|b|, k requires 0 <= k < |b| => shift <= k && b[k - shift])
  }

  function ShiftedRight(b: seq<bool>, shift: nat): seq<bool> {
    seq(|b|, k requires 0 <= k < |b| => k + shift < |b| && b[k + shift])
  }

  class DynamicBitmap {
    var words: array<Word>
    var size: nat

    /** The right number of words, and nothing but zeros beyond the size. */
    ghost predicate Valid()
      reads this, words
    {
      words.Length == WordsFor(size) && forall k: nat :: size <= k ==> !BitAt(words[..], k)
    }

    /** The bitmap as a sequence of booleans. */
    ghost function Bits(): (b: seq<bool>)
      reads this, words
    {
      BitsOf(words[..], size)
    }

    constructor (size: nat, initial: bool)
      ensures Valid() && fresh(words) && this.size == size && Bits() == seq(size, _ => initial)
    {
      this.size := size;
      words := new Word[WordsFor(size)](_ => 0);
      new;
      if initial {
        DoSetAll(words, size);
      } else {
        forall k: nat ensures !BitAt(words[..], k) {
          ZeroBit(k % WORD_BITS);
        }
      }
    }

    method SetAt(index: nat, value: bool)
      requires Valid() && index < size
      modifies words
      ensures Valid() && Bits() == old(Bits())[index := value]
    {
      if value {
        DoSetAt(words, index);
      } else {
        DoClearAt(words, index);
      }
    }

    method GetAt(index: nat) returns (value: bool)
      requires Valid() && index < size
      ensures value == Bits()[index]
    {
      var n, mask := index / WORD_BITS, Shl(1, index % WORD_BITS);
      OneBitTest(words[n], index % WORD_BITS);
      value := And(words[n], mask) != 0;
    }

    method LeftShift(shift: nat)
      requires Valid() && (shift == 0 || ShiftsWithin(shift, words.Length))
      modifies words
      ensures Valid() && Bits() == ShiftedLeft(old(Bits()), shift)
    {
      if shift != 0 {
        DoLeftShift(words, size, shift);
      }
    }

    method RightShift(shift: nat)
      requires Valid() && (shift == 0 || shift / WORD_BITS < words.Length)
      modifies words
      ensures Valid() && Bits() == ShiftedRight(old(Bits()), shift)
    {
      if shift != 0 {
        DoRightShift(words, shift);
      }
    }

    method AndWith(rhs: DynamicBitmap)
      requires Valid() && rhs.Valid() && rhs.size == size
      modifies words
      ensures Valid() && Bits() == Pointwise((x, y) => x && y, old(Bits()), old(rhs.Bits()))
    {
      DoAndWith(words, rhs.words);
    }

    method OrWith(rhs: DynamicBitmap)
      requires Valid() && rhs.Valid() && rhs.size == size
      modifies words
      ensures Valid() && Bits() == Pointwise((x, y) => x || y, old(Bits()), old(rhs.Bits()))
    {
      DoOrWith(words, rhs.words);
    }

    method XorWith(rhs: DynamicBitmap)
      requires Valid() && rhs.Valid() && rhs.size == size
      modifies words
      ensures Valid() && Bits() == Pointwise((x, y) => x != y, old(Bits()), old(rhs.Bits()))
    {
      DoXorWith(words, rhs.words);
    }

    method SetAll()
      requires Valid()
      modifies words
      ensures Valid() && Bits() == seq(size, _ => true)
    {
      DoSetAll(words, size);
    }

    method FindFirst() returns (found: bool, result: nat)
      requires Valid()
      ensures found ==> LowestFrom(Bits(), 0, result)
      ensures !found ==> NoneFrom(Bits(), 0)
    {
      found, result := DoFindFirst(words);
      if found {
        LowestInBits(words[..], size, 0, result);
      }
    }

    method FindNext(prev: u64) returns (found: bool, result: nat)
      requires Valid()
      ensures found ==> LowestFrom(Bits(), NextBound(prev), result)
      ensures !found ==> NoneFrom(Bits(), NextBound(prev))
    {
      found, result := DoFindNext(words, prev);
      if found {
        LowestInBits(words[..], size, NextBound(prev), result);
      }
    }

    method AllAreClearInRange(start: nat, end: nat) returns (clear: bool)
      requires Valid() && start < end <= size
      ensures clear <==> forall k :: start <= k < end ==> !Bits()[k]
    {
      clear := DoAllAreClearInRange(words, start, end);
      assert ClearBetween(words[..], start, end) <==> forall k :: start <= k < end ==> !Bits()[k] by {
        if ClearBetween(words[..], start, end) {
          forall k | start <= k < end ensures !Bits()[k] {
            assert !BitAt(words[..], k);
          }
        } else {
          var k: nat :| start <= k < end && BitAt(words[..], k);
          assert Bits()[k];
        }
      }
    }

    /**
     Resizing keeps every word that remains and adds zero words. It does not mask
     the last word, so the padding is clean exactly when no bit was set between the
     new size and the end of that word.
     */
    method Resize(newSize: nat)
      requires Valid()
      modifies this
      ensures fresh(words) && size == newSize && words.Length == WordsFor(newSize)
      ensures forall k: nat :: BitAt(words[..], k) == (k < WORD_BITS * WordsFor(newSize) && BitAt(old(words[..]), k))
      ensures Valid() <==> ClearBetween(old(words[..]), newSize, WORD_BITS * WordsFor(newSize))
    {
      ghost var s := words[..];
      var was := words;
      var now := new Word[WordsFor(newSize)](_ => 0);
      for n := 0 to now.Length
        invariant words == was && was[..] == s
        invariant forall j :: 0 <= j < now.Length ==> now[j] == if j < n && j < was.Length then s[j] else 0
      {
        if n < was.Length {
          now[n] := was[n];
        }
      }
      words, size := now, newSize;
      forall k: nat ensures BitAt(now[..], k) == (k < WORD_BITS * WordsFor(newSize) && BitAt(s, k)) {
        ZeroBit(k % WORD_BITS);
      }
    }
  }

  // ------------------------------------------------------------ enumeration

  /** r is the lowest set position at or after `from`. */
  ghost predicate LowestFrom(b: seq<bool>, from: nat, r: nat) {
    from <= r < |b| && b[r] && forall k :: from <= k < r ==> !b[k]
  }

  ghost predicate NoneFrom(b: seq<bool>, from: nat) {
    forall k :: from <= k < |b| ==> !b[k]
  }

  lemma LowestInBits(s: seq<Word>, size: nat, from: nat, r: nat)
    requires FirstSet(s, from, r) && forall k: nat :: size <= k ==> !BitAt(s, k)
    ensures LowestFrom(BitsOf(s, size), from, r)
  {
    assert BitAt(s, r);
    forall k | from <= k < r ensures !BitsOf(s, size)[k] {
      assert !BitAt(s, k);
    }
  }

  /** The set positions from `from` on, in ascending order. */
  function SetPositions(b: seq<bool>, from: nat): seq<nat>
    decreases |b| - from
  {
    if from >= |b| then []
    else if b[from] then [from] + SetPositions(b, from + 1)
    else SetPositions(b, from + 1)
  }

  lemma {:induction false} SetPositionsExact(b: seq<bool>, from: nat, k: nat)
    ensures k in SetPositions(b, from) <==> from <= k < |b| && b[k]
    decreases |b| - from
  {
    if from >= |b| {
    } else {
      SetPositionsExact(b, from + 1, k);
    }
  }

  lemma {:induction false} SetPositionsAscend(b: seq<bool>, from: nat, i: nat, j: nat)
    requires i < j < |SetPositions(b, from)|
    ensures SetPositions(b, from)[i] < SetPositions(b, from)[j]
    decreases |b| - from
  {
    if !b[from] {
      SetPositionsAscend(b, from + 1, i, j);
    } else if i == 0 {
      var rest := SetPositions(b, from + 1);
      SetPositionsExact(b, from + 1, rest[j - 1]);
    } else {
      SetPositionsAscend(b, from + 1, i - 1, j - 1);
    }
  }

  // The result of a search is the head of the enumeration, and what comes after it is the tail.
  lemma {:induction false} FindNextEnumerates(b: seq<bool>, from: nat, r: nat)
    ensures LowestFrom(b, from, r) ==> SetPositions(b, from) == [r] + SetPositions(b, r + 1)
    ensures NoneFrom(b, from) ==> SetPositions(b, from) == []
    decreases |b| - from
  {
    if from >= |b| || b[from] {
    } else {
      FindNextEnumerates(b, from + 1, r);
    }
  }

  /** The hits are the set positions below `next`. */
  ghost predicate Walked(b: seq<bool>, hits: seq<nat>, next: nat) {
    SetPositions(b, 0) == hits + SetPositions(b, next)
  }

  lemma WalkBegin(b: seq<bool>)
    ensures Walked(b, [], 0)
  {
  }

  lemma WalkStep(b: seq<bool>, hits: seq<nat>, next: nat, r: nat)
    requires Walked(b, hits, next) && LowestFrom(b, next, r)
    ensures Walked(b, hits + [r], r + 1)
  {
    FindNextEnumerates(b, next, r);
    Reassociate(hits, [r], SetPositions(b, r + 1));
  }

  lemma WalkEnd(b: seq<bool>, hits: seq<nat>, next: nat)
    requires Walked(b, hits, next) && NoneFrom(b, next)
    ensures hits == SetPositions(b, 0)
  {
    FindNextEnumerates(b, next, 0);
  }

  // Below 2^64 positions the increment does not wrap.
  method FindAfter(bitmap: DynamicBitmap, r: nat) returns (found: bool, result: nat)
    requires bitmap.Valid() && r < bitmap.size < TWO_64
    ensures if found then LowestFrom(bitmap.Bits(), r + 1, result) else NoneFrom(bitmap.Bits(), r + 1)
  {
    found, result := bitmap.FindNext(r);
  }

  // FindFirst and then FindNext after each hit walk through exactly the set positions, in ascending order.
  method Enumerate(bitmap: DynamicBitmap) returns (hits: seq<nat>)
    requires bitmap.Valid() && bitmap.size < TWO_64
    ensures hits == SetPositions(bitmap.Bits(), 0)
  {
    ghost var b := bitmap.Bits();
    hits := [];
    ghost var next: nat := 0;
    WalkBegin(b);
    var found, r := bitmap.FindFirst();
    while found
      invariant Walked(b, hits, next) && (if found then LowestFrom(b, next, r) else NoneFrom(b, next))
      decreases |b| - next, found
    {
      WalkStep(b, hits, next, r);
      hits := hits + [r];
      next := r + 1;
      found, r := FindAfter(bitmap, r);
    }
    WalkEnd(b, hits, next);
  }

  // Two set bits, resized to one: the second stays behind in the padding.
  method ResizeLeavesABit() returns (bitmap: DynamicBitmap)
    ensures fresh(bitmap) && bitmap.size == 1 && !bitmap.Valid() && BitAt(bitmap.words[..], 1)
  {
    bitmap := new DynamicBitmap(2, true);
    assert bitmap.Bits()[1];
    bitmap.Resize(1);
  }
}
