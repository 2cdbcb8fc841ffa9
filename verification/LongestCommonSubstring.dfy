/**
 The diagonal-sweep search for a longest common substring in
 base/string/algorithm.cpp, with its early break. Lengths are cast to 32-bit signed
 integers, as the source does.
 */
module LongestCommonSubstring {
  /** `static_cast<int>` of a size. */
  function Int32(n: nat): (r: int)
    ensures r <= n && (n < 0x8000_0000 ==> r == n)
  {
    var low := n % 0x1_0000_0000;
    if low >= 0x8000_0000 then low - 0x1_0000_0000 else low
  }

  /** The number of equal characters that end at positions m of s and n of t. */
  function Run(s: string, t: string, m: nat, n: nat): (l: nat)
    requires m <= |s| && n <= |t|
    ensures l <= m && l <= n
  {
    if m == 0 || n == 0 || s[m - 1] != t[n - 1] then 0 else 1 + Run(s, t, m - 1, n - 1)
  }

  // A common substring of length l ends at (m, n) exactly when the run there is that long.
  lemma {:induction false} RunIsLongest(s: string, t: string, m: nat, n: nat, l: nat)
    requires l <= m <= |s| && l <= n <= |t|
    ensures s[m - l..m] == t[n - l..n] <==> l <= Run(s, t, m, n)
  {
    if l == 0 {
    } else {
      RunIsLongest(s, t, m - 1, n - 1, l - 1);
      var x, y := s[m - l..m], t[n - l..n];
      assert x == s[m - l..m - 1] + [s[m - 1]] && y == t[n - l..n - 1] + [t[n - 1]];
      assert x == y <==> x[..l - 1] == y[..l - 1] && x[l - 1] == y[l - 1];
    }
  }

  /** No run longer than `longest` ends on the diagonals m - n from lo up to hi, within n1 and n2. */
  ghost predicate Covered(s: string, t: string, n1: int, n2: int, lo: int, hi: int, longest: int)
    requires n1 <= |s| && n2 <= |t|
  {
    forall m: nat, n: nat :: m <= n1 && n <= n2 && lo <= m - n < hi ==> Run(s, t, m, n) <= longest
  }

  /** The best common substring so far: its length and where it starts. */
  datatype Best = Best(longest: nat, pos1: int, pos2: int)

  ghost predicate Witness(s: string, t: string, n1: int, n2: int, b: Best)
    requires n1 <= |s| && n2 <= |t|
  {
    b.longest > 0 ==>
      && 0 <= b.pos1 && b.pos1 + b.longest <= n1 && 0 <= b.pos2 && b.pos2 + b.longest <= n2
      && b.longest <= Run(s, t, b.pos1 + b.longest, b.pos2 + b.longest)
  }

  /** No run longer than `longest` ends on diagonal d at or before m. */
  ghost predicate SeenUpTo(s: string, t: string, d: int, m: int, longest: int) {
    forall k: nat, l: nat :: k <= m && k <= |s| && l <= |t| && k - l == d ==> Run(s, t, k, l) <= longest
  }

  lemma SeenOneMore(s: string, t: string, m: nat, n: nat, last: int, longest: int)
    requires 0 < m <= |s| && 0 < n <= |t| && SeenUpTo(s, t, m - n, m - 1, last)
    requires last <= longest && Run(s, t, m, n) <= longest
    ensures SeenUpTo(s, t, m - n, m, longest)
  {
  }

  // ------------------------------------------------------------ sweep order

  /** The sweeps take the diagonals 0, 1, 2, ... and then -1, -2, ... */
  ghost predicate Precedes(d: int, e: int) {
    0 <= d < e || (e < 0 && (d >= 0 || d > e))
  }

  /** No run longer than `longest` ends on a diagonal before e. */
  ghost predicate CoveredBefore(s: string, t: string, n1: int, n2: int, e: int, longest: int)
    requires n1 <= |s| && n2 <= |t|
  {
    forall m: nat, n: nat :: m <= n1 && n <= n2 && Precedes(m - n, e) ==> Run(s, t, m, n) <= longest
  }

  /** No run as long ends earlier in sweep order. */
  ghost predicate FirstBest(s: string, t: string, n1: int, n2: int, b: Best)
    requires n1 <= |s| && n2 <= |t|
  {
    b.longest > 0 ==>
      forall m: nat, n: nat :: m <= n1 && n <= n2
        && (Precedes(m - n, b.pos1 - b.pos2) || (m - n == b.pos1 - b.pos2 && m < b.pos1 + b.longest))
        ==> Run(s, t, m, n) < b.longest
  }

  // A run longer than all before it is the first of its length.
  lemma NewBestIsFirst(s: string, t: string, n1: int, n2: int, m: nat, n: nat, last: int, length: nat)
    requires 0 < m <= n1 <= |s| && 0 < n <= n2 <= |t| && last < length
    requires CoveredBefore(s, t, n1, n2, m - n, last) && SeenUpTo(s, t, m - n, m - 1, last)
    ensures FirstBest(s, t, n1, n2, Best(length, m - length, n - length))
  {
  }

  /** What holds on the way along diagonal d, with everything up to m seen. */
  ghost predicate Walking(s: string, t: string, n1: int, n2: int, d: int, m: int, b: Best)
    requires n1 <= |s| && n2 <= |t|
  {
    && Witness(s, t, n1, n2, b) && FirstBest(s, t, n1, n2, b)
    && CoveredBefore(s, t, n1, n2, d, b.longest) && SeenUpTo(s, t, d, m, b.longest)
  }

  lemma WalkOn(s: string, t: string, n1: int, n2: int, m: nat, n: nat, best: Best, b: Best)
    requires m < n1 <= |s| && n < n2 <= |t| && Walking(s, t, n1, n2, m - n, m, best) && Witness(s, t, n1, n2, b)
    requires Run(s, t, m + 1, n + 1) <= b.longest
    requires b == best || (best.longest < b.longest && b == Best(b.longest, m + 1 - b.longest, n + 1 - b.longest))
    ensures Walking(s, t, n1, n2, m - n, m + 1, b)
  {
    assert m + 1 - (n + 1) == m - n;
    SeenOneMore(s, t, m + 1, n + 1, best.longest, b.longest);
    if b != best {
      NewBestIsFirst(s, t, n1, n2, m + 1, n + 1, best.longest, b.longest);
    }
  }

  /** One step along a diagonal: the run grows or ends, and the longest is kept. */
  method Compare(s: string, t: string, n1: int, n2: int, m: nat, n: nat, run: nat, best: Best) returns (length: nat, b: Best)
    requires m < n1 <= |s| && n < n2 <= |t| && run == Run(s, t, m, n) && Walking(s, t, n1, n2, m - n, m, best)
    ensures length == Run(s, t, m + 1, n + 1) && best.longest <= b.longest
    ensures Walking(s, t, n1, n2, m - n, m + 1, b)
  {
    length, b := run, best;
    if s[m] != t[n] {
      length := 0;
    } else {
      length := length + 1;
      if b.longest < length {
        b := Best(length, m - length + 1, n - length + 1);
      }
    }
    WalkOn(s, t, n1, n2, m, n, best, b);
  }

  method Diagonal(s: string, t: string, n1: int, n2: int, m0: nat, n0: nat, best: Best) returns (b: Best)
    requires m0 <= n1 <= |s| && n0 <= n2 <= |t| && (m0 == 0 || n0 == 0)
    requires Witness(s, t, n1, n2, best) && FirstBest(s, t, n1, n2, best)
    requires CoveredBefore(s, t, n1, n2, m0 - n0, best.longest)
    ensures Witness(s, t, n1, n2, b) && FirstBest(s, t, n1, n2, b) && best.longest <= b.longest
    ensures Covered(s, t, n1, n2, m0 - n0, m0 - n0 + 1, b.longest)
  {
    b := best;
    var m, n, length := m0, n0, 0;
    ghost var d := m0 - n0;
    WalkBegins(s, t, n1, n2, m0, n0, best);
    while m < n1 && n < n2
      invariant m0 <= m <= n1 && n0 <= n <= n2 && m - n == d
      invariant length == Run(s, t, m, n) && best.longest <= b.longest
      invariant Walking(s, t, n1, n2, d, m, b)
    {
      length, b := Compare(s, t, n1, n2, m, n, length, b);
      m, n := m + 1, n + 1;
    }
    WalkEnds(s, t, n1, n2, m, n, b);
  }

  lemma WalkBegins(s: string, t: string, n1: int, n2: int, m: nat, n: nat, b: Best)
    requires m <= n1 <= |s| && n <= n2 <= |t| && (m == 0 || n == 0)
    requires Witness(s, t, n1, n2, b) && FirstBest(s, t, n1, n2, b) && CoveredBefore(s, t, n1, n2, m - n, b.longest)
    ensures Walking(s, t, n1, n2, m - n, m, b) && Run(s, t, m, n) == 0
  {
  }

  lemma WalkEnds(s: string, t: string, n1: int, n2: int, m: nat, n: nat, b: Best)
    requires m <= n1 <= |s| && n <= n2 <= |t| && (m == n1 || n == n2) && SeenUpTo(s, t, m - n, m, b.longest)
    ensures Covered(s, t, n1, n2, m - n, m - n + 1, b.longest)
  {
  }

  // ------------------------------------------------------------ the two sweeps

  method SweepFirst(s: string, t: string, n1: int, n2: int) returns (b: Best)
    requires n1 <= |s| && n2 <= |t|
    ensures Witness(s, t, n1, n2, b) && FirstBest(s, t, n1, n2, b) && Covered(s, t, n1, n2, 0, |s| + 1, b.longest)
  {
    b := Best(0, -1, -1);
    var i := 0;
    while i < n1
      invariant 0 <= i && (i <= n1 || i == 0) && Witness(s, t, n1, n2, b) && FirstBest(s, t, n1, n2, b)
      invariant Covered(s, t, n1, n2, 0, i, b.longest)
    {
      if n1 - i <= b.longest || n2 <= b.longest {
        return;
      }
      b := Diagonal(s, t, n1, n2, i, 0, b);
      i := i + 1;
    }
  }

  method SweepSecond(s: string, t: string, n1: int, n2: int, best: Best) returns (b: Best)
    requires n1 <= |s| && n2 <= |t| && Witness(s, t, n1, n2, best) && FirstBest(s, t, n1, n2, best)
    requires Covered(s, t, n1, n2, 0, |s| + 1, best.longest)
    ensures Witness(s, t, n1, n2, b) && FirstBest(s, t, n1, n2, b) && best.longest <= b.longest
    ensures Covered(s, t, n1, n2, -|t|, 0, b.longest)
  {
    b := best;
    var i := 1;
    while i < n2
      invariant 1 <= i && (i <= n2 || i == 1) && best.longest <= b.longest
      invariant Witness(s, t, n1, n2, b) && FirstBest(s, t, n1, n2, b)
      invariant Covered(s, t, n1, n2, 1 - i, 0, b.longest)
    {
      if n1 <= b.longest || n2 - i <= b.longest {
        return;
      }
      b := Diagonal(s, t, n1, n2, 0, i, b);
      i := i + 1;
    }
  }

  // ------------------------------------------------------------ the result

  ghost predicate OccursAt(x: string, s: string, p: int) {
    0 <= p <= |s| - |x| && s[p..p + |x|] == x
  }

  ghost predicate Occurs(x: string, s: string) {
    exists p :: OccursAt(x, s, p)
  }

  /** r is a substring of both, and no common substring is longer. */
  ghost predicate LongestCommon(s: string, t: string, r: string) {
    Occurs(r, s) && Occurs(r, t) && forall x :: Occurs(x, s) && Occurs(x, t) ==> |x| <= |r|
  }

  /** What the casts leave of a string. */
  function Visible(s: string): string {
    if Int32(|s|) <= 0 then [] else s[..Int32(|s|)]
  }

  /** The l characters at p in s and at q in t are the same. */
  ghost predicate CommonAt(s: string, t: string, l: nat, p: int, q: int) {
    0 <= p <= |s| - l && 0 <= q <= |t| - l && s[p..p + l] == t[q..q + l]
  }

  /** p and q are the first places in sweep order where l characters are the same. */
  ghost predicate FirstInSweep(s: string, t: string, l: nat, p: int, q: int) {
    && CommonAt(s, t, l, p, q)
    && forall p', q' :: CommonAt(s, t, l, p', q') ==>
         !Precedes(p' - q', p - q) && (p' - q' == p - q ==> p <= p')
  }

  method LongestCommonSubstring(str1: string, str2: string) returns (r: string, ghost first: Best)
    ensures LongestCommon(Visible(str1), Visible(str2), r)
    ensures |str1| < 0x8000_0000 && |str2| < 0x8000_0000 ==> LongestCommon(str1, str2, r)
    ensures r != "" ==> OccursAt(r, Visible(str1), first.pos1)
    ensures r != "" ==> FirstInSweep(Visible(str1), Visible(str2), |r|, first.pos1, first.pos2)
  {
    var n1, n2 := Int32(|str1|), Int32(|str2|);
    if str1 == "" || str2 == "" {
      r, first := "", Best(0, 0, 0);
      ResultIsLongest(str1, str2, n1, n2, first, r);
    } else {
      var b := Sweep(str1, str2, n1, n2);
      r := if b.longest == 0 then "" else str1[b.pos1..b.pos1 + b.longest];
      first := b;
      ResultIsLongest(str1, str2, n1, n2, b, r);
      if b.longest > 0 {
        ResultIsFirst(str1, str2, n1, n2, b, r);
      }
    }
  }

  /** No run on any diagonal is longer, and none as long ends earlier. */
  ghost predicate Swept(s: string, t: string, n1: int, n2: int, b: Best)
    requires n1 <= |s| && n2 <= |t|
  {
    && Witness(s, t, n1, n2, b) && FirstBest(s, t, n1, n2, b)
    && Covered(s, t, n1, n2, 0, |s| + 1, b.longest) && Covered(s, t, n1, n2, -|t|, 0, b.longest)
  }

  method Sweep(s: string, t: string, n1: int, n2: int) returns (b: Best)
    requires n1 <= |s| && n2 <= |t|
    ensures Swept(s, t, n1, n2, b)
  {
    b := SweepFirst(s, t, n1, n2);
    b := SweepSecond(s, t, n1, n2, b);
  }

  lemma InVisible(s: string, p: int, l: nat)
    requires l > 0
    ensures 0 <= p <= |Visible(s)| - l <==> 0 <= p && p + l <= Int32(|s|)
  {
  }

  lemma CommonRun(s: string, t: string, l: nat, p: int, q: int)
    requires l > 0
    ensures CommonAt(Visible(s), Visible(t), l, p, q) <==>
            0 <= p && p + l <= Int32(|s|) && 0 <= q && q + l <= Int32(|t|) && l <= Run(s, t, p + l, q + l)
  {
    InVisible(s, p, l);
    InVisible(t, q, l);
    if 0 <= p && p + l <= Int32(|s|) && 0 <= q && q + l <= Int32(|t|) {
      VisibleSlice(s, p, l);
      VisibleSlice(t, q, l);
      RunIsLongest(s, t, p + l, q + l, l);
    }
  }

  lemma ResultIsFirst(s: string, t: string, n1: int, n2: int, b: Best, r: string)
    requires n1 == Int32(|s|) && n2 == Int32(|t|) && b.longest > 0
    requires Swept(s, t, n1, n2, b) && r == s[b.pos1..b.pos1 + b.longest]
    ensures OccursAt(r, Visible(s), b.pos1) && FirstInSweep(Visible(s), Visible(t), b.longest, b.pos1, b.pos2)
  {
    var v, w, l := Visible(s), Visible(t), b.longest;
    VisibleSlice(s, b.pos1, l);
    CommonRun(s, t, l, b.pos1, b.pos2);
    forall p, q | CommonAt(v, w, l, p, q)
      ensures !Precedes(p - q, b.pos1 - b.pos2) && (p - q == b.pos1 - b.pos2 ==> b.pos1 <= p)
    {
      CommonRun(s, t, l, p, q);
    }
  }

  lemma VisibleSlice(s: string, p: int, l: int)
    requires 0 <= p && 0 <= l && p + l <= Int32(|s|)
    ensures p + l <= |Visible(s)| && Visible(s)[p..p + l] == s[p..p + l]
  {
  }

  lemma ResultOccurs(s: string, t: string, n1: int, n2: int, b: Best, r: string)
    requires n1 == Int32(|s|) && n2 == Int32(|t|) && Witness(s, t, n1, n2, b)
    requires r == (if b.longest == 0 then "" else s[b.pos1..b.pos1 + b.longest])
    ensures Occurs(r, Visible(s)) && Occurs(r, Visible(t))
  {
    var v, w := Visible(s), Visible(t);
    if b.longest == 0 {
      assert OccursAt(r, v, 0) && OccursAt(r, w, 0);
    } else {
      RunIsLongest(s, t, b.pos1 + b.longest, b.pos2 + b.longest, b.longest);
      VisibleSlice(s, b.pos1, b.longest);
      VisibleSlice(t, b.pos2, b.longest);
      assert OccursAt(r, v, b.pos1) && OccursAt(r, w, b.pos2);
    }
  }

  lemma CommonIsCovered(s: string, t: string, n1: int, n2: int, longest: nat, x: string, p: int, q: int)
    requires n1 == Int32(|s|) && n2 == Int32(|t|) && |x| > 0
    requires Covered(s, t, n1, n2, 0, |s| + 1, longest) && Covered(s, t, n1, n2, -|t|, 0, longest)
    requires OccursAt(x, Visible(s), p) && OccursAt(x, Visible(t), q)
    ensures |x| <= longest
  {
    VisibleSlice(s, p, |x|);
    VisibleSlice(t, q, |x|);
    RunIsLongest(s, t, p + |x|, q + |x|, |x|);
  }

  lemma ResultIsLongest(s: string, t: string, n1: int, n2: int, b: Best, r: string)
    requires n1 == Int32(|s|) && n2 == Int32(|t|) && Witness(s, t, n1, n2, b)
    requires r == (if b.longest == 0 then "" else s[b.pos1..b.pos1 + b.longest])
    requires s == "" || t == "" || Swept(s, t, n1, n2, b)
    ensures LongestCommon(Visible(s), Visible(t), r)
    ensures (|s| < 0x8000_0000 ==> Visible(s) == s) && (|t| < 0x8000_0000 ==> Visible(t) == t)
  {
    ResultOccurs(s, t, n1, n2, b, r);
    forall x | Occurs(x, Visible(s)) && Occurs(x, Visible(t)) ensures |x| <= |r| {
      var p :| OccursAt(x, Visible(s), p);
      var q :| OccursAt(x, Visible(t), q);
      if |x| > 0 {
        CommonIsCovered(s, t, n1, n2, b.longest, x, p, q);
      }
    }
  }

  // ------------------------------------------------------------ when the result is right

  lemma VisibleIsAll(s: string)
    ensures |Visible(s)| <= |s| && Visible(s) == s[..|Visible(s)|] && (|Visible(s)| == |s| <==> |s| < 0x8000_0000)
  {
  }

  // A string compared with itself comes back exactly when it is shorter than 2^31 characters.
  lemma LongestWithItself(s: string, r: string)
    requires LongestCommon(Visible(s), Visible(s), r)
    ensures LongestCommon(s, s, r) <==> |s| < 0x8000_0000
  {
    var v := Visible(s);
    VisibleIsAll(s);
    assert OccursAt(v, v, 0) && OccursAt(s, s, 0);
    if |s| < 0x8000_0000 {
      assert v == s;
    }
  }

  function Repeat(c: char, n: nat): (r: string)
    ensures |r| == n && forall i :: 0 <= i < n ==> r[i] == c
  {
    seq(n, _ => c)
  }

  /** What every result allowed by the casts is, for strings of these lengths, a longest common substring. */
  ghost predicate AlwaysLongest(n1: nat, n2: nat) {
    forall s, t, r :: |s| == n1 && |t| == n2 && LongestCommon(Visible(s), Visible(t), r) ==> LongestCommon(s, t, r)
  }

  /** The characters the casts hide are all that the other string has. */
  lemma HiddenCharacters(n: nat, k: nat) returns (s: string, t: string)
    requires n >= 0x8000_0000 && k > 0
    ensures |s| == n && |t| == k
    ensures Occurs("a", s) && Occurs("a", t)
    ensures forall x :: Occurs(x, Visible(s)) && Occurs(x, Visible(t)) ==> x == ""
  {
    var v := |Visible(Repeat('b', n))|;
    VisibleIsAll(Repeat('b', n));
    s, t := Repeat('b', v) + Repeat('a', n - v), Repeat('a', k);
    assert OccursAt("a", s, n - 1) && OccursAt("a", t, 0);
    VisibleIsAll(s);
    VisibleIsAll(t);
    forall x | Occurs(x, Visible(s)) && Occurs(x, Visible(t)) ensures x == "" {
      var p :| OccursAt(x, Visible(s), p);
      var q :| OccursAt(x, Visible(t), q);
      if x != "" {
        SharedCharacter(Visible(s), Visible(t), x, p, q, 0);
      }
    }
  }

  lemma SharedCharacter(v: string, w: string, x: string, p: int, q: int, i: nat)
    requires OccursAt(x, v, p) && OccursAt(x, w, q) && i < |x|
    ensures v[p + i] == w[q + i]
  {
    assert v[p..p + |x|][i] == w[q..q + |x|][i];
  }

  // The result is a longest common substring, whatever the strings, exactly when one of them is empty or both are
  // shorter than 2^31 characters.
  lemma RightExactlyBelow(n1: nat, n2: nat)
    ensures AlwaysLongest(n1, n2) <==> n1 == 0 || n2 == 0 || (n1 < 0x8000_0000 && n2 < 0x8000_0000)
  {
    if n1 == 0 || n2 == 0 || (n1 < 0x8000_0000 && n2 < 0x8000_0000) {
      forall s: string, t: string, r | |s| == n1 && |t| == n2 && LongestCommon(Visible(s), Visible(t), r)
        ensures LongestCommon(s, t, r)
      {
        RightWhenVisible(s, t, r);
      }
    } else {
      var s, t;
      if n1 >= 0x8000_0000 {
        s, t := HiddenCharacters(n1, n2);
      } else {
        t, s := HiddenCharacters(n2, n1);
      }
      NothingVisible(s, t);
      assert !LongestCommon(s, t, "");
    }
  }

  lemma RightWhenVisible(s: string, t: string, r: string)
    requires s == "" || t == "" || (|s| < 0x8000_0000 && |t| < 0x8000_0000)
    requires LongestCommon(Visible(s), Visible(t), r)
    ensures LongestCommon(s, t, r)
  {
    VisibleIsAll(s);
    VisibleIsAll(t);
    if s == "" || t == "" {
      assert r == "" && OccursAt(r, s, 0) && OccursAt(r, t, 0);
    } else {
      assert Visible(s) == s && Visible(t) == t;
    }
  }

  lemma NothingVisible(s: string, t: string)
    requires forall x :: Occurs(x, Visible(s)) && Occurs(x, Visible(t)) ==> x == ""
    ensures LongestCommon(Visible(s), Visible(t), "")
  {
    assert OccursAt("", Visible(s), 0) && OccursAt("", Visible(t), 0);
  }

  // The header says the last one is returned. Of "ab" and "acb" it is "a", the first.
  lemma FirstOfTwoIsReturned(r: string, first: Best)
    requires LongestCommon("ab", "acb", r)
    requires r != "" ==> OccursAt(r, "ab", first.pos1)
    requires r != "" ==> FirstInSweep("ab", "acb", |r|, first.pos1, first.pos2)
    ensures r == "a"
  {
    assert OccursAt("a", "ab", 0) && OccursAt("a", "acb", 0);
    assert Occurs("a", "ab") && Occurs("a", "acb");
    assert |r| >= 1;
    var q :| OccursAt(r, "acb", q);
    if |r| >= 2 {
      SharedCharacter("ab", "acb", r, first.pos1, q, 0);
      SharedCharacter("ab", "acb", r, first.pos1, q, 1);
    }
    assert "ab"[0..1] == "a" == "acb"[0..1];
    assert CommonAt("ab", "acb", 1, 0, 0);
  }
}
