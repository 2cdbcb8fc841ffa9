/**
 The linked structure of container/skiplist.h as a memory of nodes. A pointer is
 an index into `nodes`, NIL is the null pointer and index 0 is the head. Nodes are
 only ever added, as the arena never frees one.

 `linked[n]` counts the levels on which node n has been published. It is not
 program state: it names which pointers a reader can already follow.
 */
module SkipListMemory {
  const MAX_HEIGHT: nat := 12
  const NIL: int := -1
  const HEAD: nat := 0

  datatype Node = Node(key: int, next: seq<int>)

  datatype Memory = Memory(nodes: seq<Node>, linked: seq<nat>, maxHeight: nat)

  /** Node n is published on level i. */
  predicate On(m: Memory, n: int, i: nat) {
    0 <= n < |m.nodes| && n < |m.linked| && i < m.linked[n]
  }

  /** Node n other than the head, published on level i. */
  predicate Entry(m: Memory, n: int, i: nat) {
    n != HEAD && On(m, n, i)
  }

  function Key(m: Memory, n: int): int {
    if 0 <= n < |m.nodes| then m.nodes[n].key else 0
  }

  /** Node x sorts before key k; the head sorts before everything. */
  predicate Before(m: Memory, x: int, k: int) {
    x == HEAD || Key(m, x) < k
  }

  function Next(m: Memory, x: int, i: nat): int {
    if 0 <= x < |m.nodes| && i < |m.nodes[x].next| then m.nodes[x].next[i] else NIL
  }

  /** y is the entry that follows x on level i, or NIL when there is none. */
  ghost predicate IsSuccessor(m: Memory, x: int, i: nat, y: int) {
    && (y == NIL || (Entry(m, y, i) && Before(m, x, Key(m, y))))
    && (forall z :: Entry(m, z, i) && Before(m, x, Key(m, z)) ==> y != NIL && Key(m, y) <= Key(m, z))
  }

  ghost predicate Shape(m: Memory) {
    && 0 < |m.nodes| == |m.linked|
    && 1 <= m.maxHeight <= MAX_HEIGHT
    && |m.nodes[HEAD].next| == MAX_HEIGHT && m.linked[HEAD] == MAX_HEIGHT
    && (forall n :: 0 <= n < |m.nodes| ==> m.linked[n] <= |m.nodes[n].next| <= MAX_HEIGHT)
    && (forall n :: 0 < n < |m.nodes| ==> m.linked[n] <= m.maxHeight)
  }

  /** No two entries of the bottom level have the same key. */
  ghost predicate DistinctKeys(m: Memory) {
    forall a, b :: Entry(m, a, 0) && Entry(m, b, 0) && Key(m, a) == Key(m, b) ==> a == b
  }

  /** Every published pointer leads to the next entry of its level. */
  ghost predicate Ordered(m: Memory) {
    forall x, i: nat :: On(m, x, i) ==> IsSuccessor(m, x, i, Next(m, x, i))
  }

  ghost predicate Inv(m: Memory) {
    Shape(m) && DistinctKeys(m) && Ordered(m)
  }

  /** The keys a reader can find: those of the entries of the bottom level. */
  function Keys(m: Memory): set<int> {
    set n | 0 < n < |m.nodes| && On(m, n, 0) :: Key(m, n)
  }

  // ------------------------------------------------------------ single stores

  /** A fresh node whose pointers hold whatever the memory held. */
  function Allocate(m: Memory, key: int, raw: seq<int>): Memory {
    m.(nodes := m.nodes + [Node(key, raw)], linked := m.linked + [0])
  }

  /** Store y in the level-i pointer of node x. */
  function SetNext(m: Memory, x: int, i: nat, y: int): Memory
    requires 0 <= x < |m.nodes| && i < |m.nodes[x].next|
  {
    m.(nodes := m.nodes[x := m.nodes[x].(next := m.nodes[x].next[i := y])])
  }

  /** The store that publishes node n on its next level, behind p. */
  function Publish(m: Memory, p: int, n: int): Memory
    requires 0 <= n < |m.nodes| == |m.linked|
    requires 0 <= p < |m.nodes| && m.linked[n] < |m.nodes[p].next|
  {
    var i := m.linked[n];
    SetNext(m, p, i, n).(linked := m.linked[n := i + 1])
  }

  /** The constructor: a head with every pointer null. */
  function Empty(headKey: int): Memory {
    Memory([Node(headKey, seq(MAX_HEIGHT, _ => NIL))], [MAX_HEIGHT], 1)
  }

  lemma EmptyInv(headKey: int)
    ensures Inv(Empty(headKey)) && Keys(Empty(headKey)) == {}
  {
  }

  /** p is where key is to be linked on level i. */
  ghost predicate Predecessor(m: Memory, p: int, i: nat, key: int) {
    && On(m, p, i) && Before(m, p, key)
    && var y := Next(m, p, i);
       y == NIL || key < Key(m, y)
  }

  // A level whose entries, keys and pointers are unchanged stays ordered.
  lemma SameLevel(m: Memory, m': Memory, x: int, i: nat)
    requires On(m, x, i) && IsSuccessor(m, x, i, Next(m, x, i))
    requires forall z :: On(m, z, i) <==> On(m', z, i)
    requires forall z :: On(m, z, i) ==> Key(m', z) == Key(m, z)
    requires Next(m', x, i) == Next(m, x, i)
    ensures IsSuccessor(m', x, i, Next(m', x, i))
  {
    var y := Next(m, x, i);
    assert y == NIL || On(m, y, i);
    forall z | Entry(m', z, i) && Before(m', x, Key(m', z)) ensures y != NIL && Key(m', y) <= Key(m', z) {
      assert Entry(m, z, i) && Before(m, x, Key(m, z));
    }
  }

  lemma AllocateInv(m: Memory, key: int, raw: seq<int>)
    requires Inv(m) && |raw| <= MAX_HEIGHT
    ensures Inv(Allocate(m, key, raw))
    ensures Keys(Allocate(m, key, raw)) == Keys(m)
    ensures forall x, i: nat :: On(m, x, i) <==> On(Allocate(m, key, raw), x, i)
    ensures forall x, i: nat :: On(m, x, i) ==> Next(Allocate(m, key, raw), x, i) == Next(m, x, i)
    ensures forall x :: 0 <= x < |m.nodes| ==> Key(Allocate(m, key, raw), x) == Key(m, x)
  {
    var m' := Allocate(m, key, raw);
    assert forall x, i: nat :: On(m, x, i) <==> On(m', x, i);
    forall x, i: nat | On(m', x, i) ensures IsSuccessor(m', x, i, Next(m', x, i)) {
      assert On(m, x, i);
      SameLevel(m, m', x, i);
    }
    SameKeys(m, m');
  }

  lemma SameKeys(m: Memory, m': Memory)
    requires forall x :: On(m, x, 0) <==> On(m', x, 0)
    requires forall x :: On(m, x, 0) ==> Key(m', x) == Key(m, x)
    ensures Keys(m) == Keys(m')
  {
    forall k | k in Keys(m) ensures k in Keys(m') {
      var n :| 0 < n < |m.nodes| && On(m, n, 0) && Key(m, n) == k;
      assert On(m', n, 0);
    }
    forall k | k in Keys(m') ensures k in Keys(m) {
      var n :| 0 < n < |m'.nodes| && On(m', n, 0) && Key(m', n) == k;
      assert On(m, n, 0);
    }
  }

  // A store to a pointer nobody can follow yet changes nothing a reader sees.
  lemma PrivateStoreInv(m: Memory, x: int, i: nat, y: int)
    requires Inv(m) && 0 <= x < |m.nodes| && i < |m.nodes[x].next| && !On(m, x, i)
    ensures Inv(SetNext(m, x, i, y)) && Keys(SetNext(m, x, i, y)) == Keys(m)
    ensures forall z, j: nat :: On(m, z, j) <==> On(SetNext(m, x, i, y), z, j)
    ensures forall z, j: nat :: On(m, z, j) ==> Next(SetNext(m, x, i, y), z, j) == Next(m, z, j)
    ensures forall z :: Key(SetNext(m, x, i, y), z) == Key(m, z)
    ensures Next(SetNext(m, x, i, y), x, i) == y
  {
    var m' := SetNext(m, x, i, y);
    forall z, j: nat | On(m', z, j) ensures IsSuccessor(m', z, j, Next(m', z, j)) {
      assert On(m, z, j);
      SameLevel(m, m', z, j);
    }
    SameKeys(m, m');
  }

  lemma RaiseHeightInv(m: Memory, h: nat)
    requires Inv(m) && m.maxHeight <= h <= MAX_HEIGHT
    ensures Inv(m.(maxHeight := h)) && Keys(m.(maxHeight := h)) == Keys(m)
  {
    var m' := m.(maxHeight := h);
    forall z, j: nat | On(m', z, j) ensures IsSuccessor(m', z, j, Next(m', z, j)) {
      assert On(m, z, j);
      SameLevel(m, m', z, j);
    }
    SameKeys(m, m');
  }

  /** Node n may be published behind p: it points where p points and its key is new to the level. */
  ghost predicate Publishable(m: Memory, p: int, n: int) {
    && 0 < n < |m.nodes| == |m.linked|
    && var i := m.linked[n];
       && i < |m.nodes[n].next| && i < m.maxHeight
       && Predecessor(m, p, i, Key(m, n))
       && Next(m, n, i) == Next(m, p, i)
       && (i == 0 ==> Key(m, n) !in Keys(m))
  }

  lemma PublishLevels(m: Memory, p: int, n: int)
    requires Inv(m) && Publishable(m, p, n)
    ensures var m', i := Publish(m, p, n), m.linked[n];
            && (forall x, j: nat :: On(m', x, j) <==> On(m, x, j) || (x == n && j == i))
            && (forall x, j: nat :: (x == p && j == i) || Next(m', x, j) == Next(m, x, j))
            && Next(m', p, i) == n
            && (forall x :: Key(m', x) == Key(m, x))
            && p != n
  {
  }

  lemma PublishOrdered(m: Memory, p: int, n: int, x: int, j: nat)
    requires Inv(m) && Publishable(m, p, n)
    requires On(Publish(m, p, n), x, j)
    ensures IsSuccessor(Publish(m, p, n), x, j, Next(Publish(m, p, n), x, j))
  {
    PublishLevels(m, p, n);
    if j != m.linked[n] {
      assert On(m, x, j);
      SameLevel(m, Publish(m, p, n), x, j);
    } else {
      PublishedLevelOrdered(m, Publish(m, p, n), p, n, x, j);
    }
  }

  // On the level where n appears between p and its old successor.
  lemma PublishedLevelOrdered(m: Memory, m': Memory, p: int, n: int, x: int, i: nat)
    requires Ordered(m) && DistinctKeys(m) && n != HEAD && p != n && !On(m, n, i)
    requires Predecessor(m, p, i, Key(m, n))
    requires forall z :: On(m', z, i) <==> On(m, z, i) || z == n
    requires forall z :: Key(m', z) == Key(m, z)
    requires forall z :: z == p || z == n || Next(m', z, i) == Next(m, z, i)
    requires Next(m', p, i) == n && Next(m', n, i) == Next(m, p, i)
    requires On(m', x, i)
    ensures IsSuccessor(m', x, i, Next(m', x, i))
  {
    var y, y' := Next(m, p, i), Next(m', x, i);
    assert IsSuccessor(m, p, i, y);
    if x != n {
      assert IsSuccessor(m, x, i, Next(m, x, i));
    }
    assert y' == NIL || (Entry(m', y', i) && Before(m', x, Key(m', y')));
    forall z | Entry(m', z, i) && Before(m', x, Key(m', z)) ensures y' != NIL && Key(m', y') <= Key(m', z) {
      assert z == n || Entry(m, z, i);
      if x == p || x == n {
        assert z != n ==> Before(m, p, Key(m, z));
      } else {
        assert x == HEAD || Entry(m, x, 0);
        assert p == HEAD || Entry(m, p, 0);
        assert z != n || (Entry(m, p, i) && Before(m, x, Key(m, p)));
      }
    }
  }

  lemma PublishInv(m: Memory, p: int, n: int)
    requires Inv(m) && Publishable(m, p, n)
    ensures Inv(Publish(m, p, n))
    ensures Keys(Publish(m, p, n)) == Keys(m) + {Key(m, n)}
  {
    var m', i := Publish(m, p, n), m.linked[n];
    PublishLevels(m, p, n);
    forall x, j: nat | On(m', x, j) ensures IsSuccessor(m', x, j, Next(m', x, j)) {
      PublishOrdered(m, p, n, x, j);
    }
    PublishKeys(m, p, n);
  }

  lemma PublishKeys(m: Memory, p: int, n: int)
    requires Inv(m) && Publishable(m, p, n)
    ensures Keys(Publish(m, p, n)) == Keys(m) + {Key(m, n)}
    ensures DistinctKeys(Publish(m, p, n))
  {
    var m', i := Publish(m, p, n), m.linked[n];
    PublishLevels(m, p, n);
    assert On(m', n, 0) by { assert i == 0 || On(m, n, 0); }
    forall k | k in Keys(m) ensures k in Keys(m') {
      var a :| 0 < a < |m.nodes| && On(m, a, 0) && Key(m, a) == k;
      assert On(m', a, 0);
    }
    assert Key(m', n) in Keys(m');
    forall k | k in Keys(m') ensures k in Keys(m) + {Key(m, n)} {
      var a :| 0 < a < |m'.nodes| && On(m', a, 0) && Key(m', a) == k;
      assert a == n || On(m, a, 0);
    }
    forall a, b | Entry(m', a, 0) && Entry(m', b, 0) && Key(m', a) == Key(m', b) ensures a == b {
      assert i == 0 && a != n ==> Key(m, a) in Keys(m) by { assert a == n || On(m, a, 0); }
      assert i == 0 && b != n ==> Key(m, b) in Keys(m) by { assert b == n || On(m, b, 0); }
    }
  }

  /** `prev` holds the insertion points of key on the levels from lo up to hi. */
  ghost predicate Predecessors(m: Memory, prev: seq<int>, lo: nat, hi: nat, key: int) {
    |prev| == MAX_HEIGHT && hi <= MAX_HEIGHT && forall j: nat :: lo <= j < hi ==> Predecessor(m, prev[j], j, key)
  }

  /** `prev` with the head on the levels that were not in use before. */
  function FillWithHead(prev: seq<int>, lo: nat, hi: nat): seq<int> {
    seq(|prev|, j requires 0 <= j < |prev| => if lo <= j < hi then HEAD else prev[j])
  }

  lemma RaisedPredecessors(m: Memory, prev: seq<int>, key: int, h: nat)
    requires Inv(m) && m.maxHeight <= h <= MAX_HEIGHT && Predecessors(m, prev, 0, m.maxHeight, key)
    ensures Predecessors(m.(maxHeight := h), FillWithHead(prev, m.maxHeight, h), 0, h, key)
  {
    var filled := FillWithHead(prev, m.maxHeight, h);
    forall j: nat | j < h ensures Predecessor(m.(maxHeight := h), filled[j], j, key) {
      if j < m.maxHeight {
        assert Predecessor(m, prev[j], j, key);
      } else {
        assert IsSuccessor(m, HEAD, j, Next(m, HEAD, j));
      }
    }
  }

  lemma AllocatedPredecessors(m: Memory, prev: seq<int>, key: int, raw: seq<int>)
    requires Inv(m) && |raw| <= m.maxHeight && Predecessors(m, prev, 0, |raw|, key)
    ensures Predecessors(Allocate(m, key, raw), prev, 0, |raw|, key)
  {
    AllocateInv(m, key, raw);
    forall j: nat | j < |raw| ensures Predecessor(Allocate(m, key, raw), prev[j], j, key) {
      assert Predecessor(m, prev[j], j, key);
      assert IsSuccessor(m, prev[j], j, Next(m, prev[j], j));
      assert On(m, prev[j], j);
    }
  }

  lemma PrivateStorePredecessors(m: Memory, prev: seq<int>, lo: nat, hi: nat, key: int, x: int, i: nat, y: int)
    requires Inv(m) && Predecessors(m, prev, lo, hi, key)
    requires 0 <= x < |m.nodes| && i < |m.nodes[x].next| && !On(m, x, i)
    ensures Predecessors(SetNext(m, x, i, y), prev, lo, hi, key)
  {
    PrivateStoreInv(m, x, i, y);
    forall j: nat | lo <= j < hi ensures Predecessor(SetNext(m, x, i, y), prev[j], j, key) {
      assert Predecessor(m, prev[j], j, key);
      assert On(m, prev[j], j);
    }
  }

  // Publishing on one level leaves the insertion points of the levels above in place.
  lemma PublishPredecessors(m: Memory, p: int, n: int, prev: seq<int>, hi: nat)
    requires Inv(m) && Publishable(m, p, n) && Predecessors(m, prev, m.linked[n] + 1, hi, Key(m, n))
    ensures Predecessors(Publish(m, p, n), prev, m.linked[n] + 1, hi, Key(m, n))
  {
    PublishLevels(m, p, n);
    forall j: nat | m.linked[n] < j < hi ensures Predecessor(Publish(m, p, n), prev[j], j, Key(m, n)) {
      assert Predecessor(m, prev[j], j, Key(m, n));
    }
  }

  // ------------------------------------------------------------ searching

  /** What a search looks for: the first entry at or after a key, the last one before it, or the last of all. */
  datatype Query = AtOrAfter(target: int) | LastBefore(target: int) | Last

  /** The search moves on along its level. */
  predicate Advances(m: Memory, q: Query, y: int) {
    y != NIL && (q.Last? || Key(m, y) < q.target)
  }

  predicate ReachedFrom(m: Memory, q: Query, x: int) {
    q.Last? || Before(m, x, q.target)
  }

  /** The node a search returns when it stops on the bottom level at x, having read y. */
  function Found(q: Query, x: int, y: int): int {
    if q.AtOrAfter? then y else x
  }

  /** `r` answers the query exactly for the keys in the memory. */
  ghost predicate Answers(m: Memory, q: Query, r: int) {
    match q
    case AtOrAfter(t) =>
      && (r == NIL || (Entry(m, r, 0) && Key(m, r) in Keys(m) && t <= Key(m, r)))
      && (forall k :: k in Keys(m) && t <= k ==> r != NIL && Key(m, r) <= k)
    case LastBefore(t) =>
      && (r == HEAD || (Entry(m, r, 0) && Key(m, r) in Keys(m) && Key(m, r) < t))
      && (forall k :: k in Keys(m) && k < t ==> r != HEAD && k <= Key(m, r))
    case Last =>
      && (r == HEAD || (Entry(m, r, 0) && Key(m, r) in Keys(m)))
      && (forall k :: k in Keys(m) ==> r != HEAD && k <= Key(m, r))
  }

  lemma KeyHasEntry(m: Memory, k: int) returns (n: int)
    requires k in Keys(m)
    ensures Entry(m, n, 0) && Key(m, n) == k
  {
    n :| 0 < n < |m.nodes| && On(m, n, 0) && Key(m, n) == k;
  }

  // The load that ends a search reads the exact answer for the memory at that moment.
  lemma StopAnswers(m: Memory, q: Query, x: int)
    requires Inv(m) && On(m, x, 0) && ReachedFrom(m, q, x)
    requires !Advances(m, q, Next(m, x, 0))
    ensures Answers(m, q, Found(q, x, Next(m, x, 0)))
  {
    var y := Next(m, x, 0);
    assert IsSuccessor(m, x, 0, y);
    forall k | k in Keys(m) && !Before(m, x, k) ensures x != HEAD && k <= Key(m, x) {
    }
    forall k | k in Keys(m) && Before(m, x, k) ensures y != NIL && Key(m, y) <= k {
      var n := KeyHasEntry(m, k);
    }
  }

  lemma AdvanceReaches(m: Memory, q: Query, x: int, i: nat)
    requires Inv(m) && On(m, x, i) && Advances(m, q, Next(m, x, i))
    ensures var y := Next(m, x, i);
            Entry(m, y, i) && Before(m, x, Key(m, y)) && ReachedFrom(m, q, y)
  {
    assert IsSuccessor(m, x, i, Next(m, x, i));
  }

  // Where the search leaves a level is where the key belongs on that level.
  lemma StopIsPredecessor(m: Memory, x: int, i: nat, key: int)
    requires Inv(m) && On(m, x, i) && Before(m, x, key) && key !in Keys(m)
    requires !Advances(m, AtOrAfter(key), Next(m, x, i))
    ensures Predecessor(m, x, i, key)
  {
    var y := Next(m, x, i);
    assert IsSuccessor(m, x, i, y);
    if y == NIL {
    } else {
      EntryOnBottom(m, y, i);
      assert Key(m, y) in Keys(m);
    }
  }

  lemma MorePredecessors(m: Memory, prev: seq<int>, i: nat, hi: nat, key: int, x: int)
    requires Predecessors(m, prev, i + 1, hi, key) && i < MAX_HEIGHT && Predecessor(m, x, i, key)
    ensures Predecessors(m, prev[i := x], i, hi, key)
  {
  }

  // ------------------------------------------------------------ levels as lists

  /** The entries of level i that x still has in front of it. */
  function Ahead(m: Memory, x: int, i: nat): set<int> {
    set n | 0 < n < |m.nodes| && On(m, n, i) && Before(m, x, Key(m, n))
  }

  lemma AheadShrinks(m: Memory, x: int, i: nat)
    requires Inv(m) && On(m, x, i) && Next(m, x, i) != NIL
    ensures var y := Next(m, x, i);
            Entry(m, y, i) && Before(m, x, Key(m, y)) && |Ahead(m, y, i)| < |Ahead(m, x, i)|
  {
    var y := Next(m, x, i);
    assert IsSuccessor(m, x, i, y);
    assert y in Ahead(m, x, i) && y !in Ahead(m, y, i);
    assert Ahead(m, y, i) <= Ahead(m, x, i);
    SubsetSmaller(Ahead(m, y, i), Ahead(m, x, i));
  }

  lemma SubsetSmaller(a: set<int>, b: set<int>)
    requires a < b
    ensures |a| < |b|
  {
    var c := b - a;
    assert b == a + c;
    assert |b| == |a| + |c|;
    assert c != {};
  }

  /** What following the level-i pointers from x visits. */
  function LevelFrom(m: Memory, x: int, i: nat): seq<int>
    requires Inv(m) && On(m, x, i)
    decreases |Ahead(m, x, i)|
  {
    var y := Next(m, x, i);
    if y == NIL then [] else
      AheadShrinks(m, x, i);
      [y] + LevelFrom(m, y, i)
  }

  /** Strictly ascending keys. */
  ghost predicate Ascending(m: Memory, s: seq<int>) {
    forall a, b :: 0 <= a < b < |s| ==> Key(m, s[a]) < Key(m, s[b])
  }

  lemma AheadStep(m: Memory, x: int, i: nat)
    requires Inv(m) && On(m, x, i) && Next(m, x, i) != NIL
    ensures var y := Next(m, x, i);
            Ahead(m, x, i) == {y} + Ahead(m, y, i)
  {
    var y := Next(m, x, i);
    assert IsSuccessor(m, x, i, y);
    forall n | n in Ahead(m, x, i) ensures n == y || n in Ahead(m, y, i) {
      assert Entry(m, n, i) && Key(m, y) <= Key(m, n);
      EntryOnBottom(m, n, i);
      EntryOnBottom(m, y, i);
    }
  }

  // Following a level visits every entry ahead exactly once, in ascending order.
  lemma {:induction false} LevelFromExact(m: Memory, x: int, i: nat)
    requires Inv(m) && On(m, x, i)
    ensures Ascending(m, LevelFrom(m, x, i))
    ensures forall n :: n in LevelFrom(m, x, i) <==> n in Ahead(m, x, i)
    decreases |Ahead(m, x, i)|
  {
    var y := Next(m, x, i);
    assert IsSuccessor(m, x, i, y);
    if y != NIL {
      AheadShrinks(m, x, i);
      AheadStep(m, x, i);
      LevelFromExact(m, y, i);
      Prepend(m, y, LevelFrom(m, y, i), Ahead(m, y, i));
    }
  }

  lemma Prepend(m: Memory, y: int, s: seq<int>, e: set<int>)
    requires Ascending(m, s) && y != HEAD
    requires forall n :: n in s <==> n in e
    requires forall n :: n in e ==> Before(m, y, Key(m, n))
    ensures Ascending(m, [y] + s)
    ensures forall n :: n in [y] + s <==> n in {y} + e
  {
    assert forall a :: 0 <= a < |s| ==> s[a] in s;
  }

  lemma EntryOnBottom(m: Memory, n: int, i: nat)
    requires Entry(m, n, i)
    ensures Entry(m, n, 0)
  {
  }

  function Upper(m: Memory, s: seq<int>, i: nat): seq<int> {
    if s == [] then []
    else if On(m, s[0], i) then [s[0]] + Upper(m, s[1..], i)
    else Upper(m, s[1..], i)
  }

  lemma {:induction false} UpperMember(m: Memory, s: seq<int>, i: nat, n: int)
    ensures n in Upper(m, s, i) <==> n in s && On(m, n, i)
  {
    if s == [] {
    } else {
      UpperMember(m, s[1..], i, n);
      assert n in s <==> n == s[0] || n in s[1..];
    }
  }

  lemma {:induction false} UpperAscends(m: Memory, s: seq<int>, i: nat)
    requires Ascending(m, s)
    ensures Ascending(m, Upper(m, s, i))
  {
    if s == [] {
    } else {
      var u := Upper(m, s[1..], i);
      UpperAscends(m, s[1..], i);
      forall a | 0 <= a < |u| ensures u[a] in s[1..] {
        UpperMember(m, s[1..], i, u[a]);
      }
    }
  }

  lemma UpperExact(m: Memory, s: seq<int>, i: nat)
    requires Ascending(m, s)
    ensures Ascending(m, Upper(m, s, i))
    ensures forall n :: n in Upper(m, s, i) <==> n in s && On(m, n, i)
  {
    UpperAscends(m, s, i);
    forall n ensures n in Upper(m, s, i) <==> n in s && On(m, n, i) {
      UpperMember(m, s, i, n);
    }
  }

  lemma {:induction false} AscendingUnique(m: Memory, s: seq<int>, t: seq<int>)
    requires Ascending(m, s) && Ascending(m, t)
    requires forall n :: n in s <==> n in t
    ensures s == t
  {
    assert s != [] ==> s[0] in s && s[0] in t;
    assert t != [] ==> t[0] in t && t[0] in s;
    if s == [] {
    } else {
      assert s[0] == t[0];
      forall n ensures n in s[1..] <==> n in t[1..] {
        assert n in s[1..] ==> n in s && Key(m, s[0]) < Key(m, n);
        assert n in t[1..] ==> n in t && Key(m, t[0]) < Key(m, n);
      }
      AscendingUnique(m, s[1..], t[1..]);
    }
  }

  // Every level is the sublist of the level below that keeps the taller nodes.
  lemma LevelIsSublist(m: Memory, i: nat)
    requires Inv(m) && i + 1 < MAX_HEIGHT
    ensures LevelFrom(m, HEAD, i + 1) == Upper(m, LevelFrom(m, HEAD, i), i + 1)
  {
    LevelFromExact(m, HEAD, i);
    LevelFromExact(m, HEAD, i + 1);
    UpperExact(m, LevelFrom(m, HEAD, i), i + 1);
    AscendingUnique(m, LevelFrom(m, HEAD, i + 1), Upper(m, LevelFrom(m, HEAD, i), i + 1));
  }
}
