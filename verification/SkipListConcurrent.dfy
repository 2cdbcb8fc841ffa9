/**
 One writer and any number of readers of the skip list, interleaved load by load
 and store by store. Memory is sequentially consistent; the writer is serialised
 from outside, as container/skiplist.h requires.
 */
module SkipListConcurrent {
  import opened SkipListMemory

  /** Where `Insert` is: searching, choosing a height, allocating, or linking level i. */
  datatype Writer =
    | WIdle
    | WSearch(key: int, x: int, level: nat, prev: seq<int>)
    | WChoose(key: int, prev: seq<int>)
    | WAllocate(key: int, height: nat, prev: seq<int>)
    | WInit(node: int, i: nat, prev: seq<int>)
    | WPublish(node: int, i: nat, prev: seq<int>)

  /** Keys from which a scan has promised to miss nothing. */
  datatype Bound = Everything | From(key: int) | Nothing {
    predicate Admits(k: int) {
      Everything? || (From? && key <= k)
    }
  }

  /**
   A reader: idle, inside one of the three search loops, or holding an iterator.
   `snap` is the set of keys present when the search began and `seen` the keys the
   iterator has stood on since; both only record history.
   */
  datatype Reader =
    | RIdle
    | Searching(q: Query, x: int, level: nat, snap: set<int>)
    | Iterating(node: int, from: Bound, snap: set<int>, seen: seq<int>)

  datatype State = State(mem: Memory, writer: Writer, readers: map<nat, Reader>)

  datatype Step =
    | BeginInsert(key: int)
    | WriterLoad
    | ChooseHeight(height: nat)
    | AllocateNode(raw: seq<int>)
    | InitPointer
    | PublishPointer
    | BeginSearch(r: nat, q: Query)
    | ReaderLoad(r: nat)
    | SeekToFirst(r: nat)
    | IteratorNext(r: nat)

  ghost predicate Initial(s: State) {
    && (exists k :: s.mem == Empty(k))
    && s.writer == WIdle
    && forall r :: r in s.readers ==> s.readers[r] == RIdle
  }

  predicate Enabled(s: State, step: Step) {
    match step
    case BeginInsert(key) => s.writer.WIdle? && key !in Keys(s.mem)
    case WriterLoad => s.writer.WSearch?
    case ChooseHeight(h) => s.writer.WChoose? && 1 <= h <= MAX_HEIGHT
    case AllocateNode(raw) => s.writer.WAllocate? && |raw| == s.writer.height
    case InitPointer => s.writer.WInit? && CanStore(s.mem, s.writer.node, s.writer.i) && s.writer.i < |s.writer.prev|
    case PublishPointer =>
      && s.writer.WPublish? && s.writer.i < |s.writer.prev|
      && 0 <= s.writer.node < |s.mem.nodes| == |s.mem.linked|
      && s.mem.linked[s.writer.node] == s.writer.i
      && CanStore(s.mem, s.writer.prev[s.writer.i], s.writer.i)
    case BeginSearch(r, q) => r in s.readers && !s.readers[r].Searching?
    case ReaderLoad(r) => r in s.readers && s.readers[r].Searching?
    case SeekToFirst(r) => r in s.readers && !s.readers[r].Searching?
    case IteratorNext(r) => r in s.readers && s.readers[r].Iterating? && s.readers[r].node != NIL
  }

  predicate CanStore(m: Memory, x: int, i: nat) {
    0 <= x < |m.nodes| && i < |m.nodes[x].next|
  }

  function Apply(s: State, step: Step): State
    requires Enabled(s, step)
  {
    match step
    case BeginInsert(key) =>
      s.(writer := WSearch(key, HEAD, TopLevel(s.mem), seq(MAX_HEIGHT, _ => NIL)))
    case WriterLoad => s.(writer := SearchOn(s.mem, s.writer))
    case ChooseHeight(h) =>
      if h > s.mem.maxHeight then
        State(s.mem.(maxHeight := h),
              WAllocate(s.writer.key, h, FillWithHead(s.writer.prev, s.mem.maxHeight, h)), s.readers)
      else
        s.(writer := WAllocate(s.writer.key, h, s.writer.prev))
    case AllocateNode(raw) =>
      State(Allocate(s.mem, s.writer.key, raw), WInit(|s.mem.nodes|, 0, s.writer.prev), s.readers)
    case InitPointer =>
      var WInit(node, i, prev) := s.writer;
      State(SetNext(s.mem, node, i, Next(s.mem, prev[i], i)), WPublish(node, i, prev), s.readers)
    case PublishPointer =>
      var WPublish(node, i, prev) := s.writer;
      State(Publish(s.mem, prev[i], node),
            if i + 1 < |s.mem.nodes[node].next| then WInit(node, i + 1, prev) else WIdle, s.readers)
    case BeginSearch(r, q) =>
      s.(readers := s.readers[r := Searching(q, HEAD, TopLevel(s.mem), Keys(s.mem))])
    case ReaderLoad(r) => s.(readers := s.readers[r := ReadOn(s.mem, s.readers[r])])
    case SeekToFirst(r) =>
      s.(readers := s.readers[r := Place(s.mem, Next(s.mem, HEAD, 0), Everything, Keys(s.mem))])
    case IteratorNext(r) =>
      var Iterating(node, from, snap, seen) := s.readers[r];
      var y := Next(s.mem, node, 0);
      s.(readers := s.readers[r := Iterating(y, from, snap, if y == NIL then seen else seen + [Key(s.mem, y)])])
  }

  function TopLevel(m: Memory): nat {
    if m.maxHeight == 0 then 0 else m.maxHeight - 1
  }

  /** One turn of the search loop of `Insert`, which also records the last node of each level. */
  function SearchOn(m: Memory, w: Writer): Writer
    requires w.WSearch?
  {
    var y := Next(m, w.x, w.level);
    if Advances(m, AtOrAfter(w.key), y) then w.(x := y)
    else
      var prev := if w.level < |w.prev| then w.prev[w.level := w.x] else w.prev;
      if w.level == 0 then WChoose(w.key, prev) else w.(level := w.level - 1, prev := prev)
  }

  /** One turn of a reader's search loop: `FindGreaterOrEqual`, `FindLessThan` and `FindLast` share it. */
  function ReadOn(m: Memory, r: Reader): Reader
    requires r.Searching?
  {
    var y := Next(m, r.x, r.level);
    if Advances(m, r.q, y) then r.(x := y)
    else if r.level > 0 then r.(level := r.level - 1)
    else
      var found := Found(r.q, r.x, y);
      Place(m, if found == HEAD then NIL else found, Promise(m, r.q, found), r.snap)
  }

  function Promise(m: Memory, q: Query, found: int): Bound {
    if q.AtOrAfter? then From(q.target) else if found == HEAD then Nothing else From(Key(m, found))
  }

  /** An iterator put on a node. */
  function Place(m: Memory, node: int, from: Bound, snap: set<int>): Reader {
    Iterating(node, from, snap, if node == NIL then [] else [Key(m, node)])
  }

  // ------------------------------------------------------------ invariants

  ghost predicate NodeInv(m: Memory, node: int, i: nat, prev: seq<int>) {
    && 0 < node < |m.nodes| == |m.linked|
    && m.linked[node] == i < |m.nodes[node].next| <= m.maxHeight
    && (i == 0 <==> Key(m, node) !in Keys(m))
    && Predecessors(m, prev, i, |m.nodes[node].next|, Key(m, node))
  }

  ghost predicate WriterInv(m: Memory, w: Writer) {
    match w
    case WIdle => true
    case WSearch(key, x, level, prev) =>
      && key !in Keys(m) && level < m.maxHeight
      && On(m, x, level) && Before(m, x, key)
      && Predecessors(m, prev, level + 1, m.maxHeight, key)
    case WChoose(key, prev) => key !in Keys(m) && Predecessors(m, prev, 0, m.maxHeight, key)
    case WAllocate(key, height, prev) =>
      key !in Keys(m) && 1 <= height <= m.maxHeight && Predecessors(m, prev, 0, height, key)
    case WInit(node, i, prev) => NodeInv(m, node, i, prev)
    case WPublish(node, i, prev) => NodeInv(m, node, i, prev) && Next(m, node, i) == Next(m, prev[i], i)
  }

  /** The scan has seen every key of its snapshot between its bound and its position. */
  ghost predicate Covered(m: Memory, node: int, from: Bound, snap: set<int>, seen: seq<int>) {
    forall k :: k in snap && from.Admits(k) && (node == NIL || k <= Key(m, node)) ==> k in seen
  }

  ghost predicate AscendingWithin(seen: seq<int>, from: Bound, keys: set<int>) {
    && (forall a, b :: 0 <= a < b < |seen| ==> seen[a] < seen[b])
    && (forall a :: 0 <= a < |seen| ==> seen[a] in keys && from.Admits(seen[a]))
  }

  /** The keys seen so far ascend, start at the bound, are in the list and end at the position. */
  ghost predicate Orderly(m: Memory, node: int, from: Bound, seen: seq<int>) {
    && AscendingWithin(seen, from, Keys(m))
    && (node != NIL ==> seen != [] && seen[|seen| - 1] == Key(m, node))
  }

  ghost predicate ReaderInv(m: Memory, r: Reader) {
    match r
    case RIdle => true
    case Searching(q, x, level, snap) => On(m, x, level) && ReachedFrom(m, q, x) && snap <= Keys(m)
    case Iterating(node, from, snap, seen) =>
      && snap <= Keys(m)
      && (node == NIL || Entry(m, node, 0))
      && Orderly(m, node, from, seen) && Covered(m, node, from, snap, seen)
  }

  ghost predicate GlobalInv(s: State) {
    && Inv(s.mem)
    && WriterInv(s.mem, s.writer)
    && forall r :: r in s.readers ==> ReaderInv(s.mem, s.readers[r])
  }

  // ------------------------------------------------------------ what a store leaves alone

  /** Later memories only add: nothing published is withdrawn and no key changes. */
  ghost predicate Extends(m: Memory, m': Memory) {
    && Keys(m) <= Keys(m')
    && (forall x, i: nat :: On(m, x, i) ==> On(m', x, i))
    && (forall x, i: nat :: On(m, x, i) ==> Key(m', x) == Key(m, x))
  }

  lemma ReaderStable(m: Memory, m': Memory, r: Reader)
    requires Extends(m, m') && ReaderInv(m, r)
    ensures ReaderInv(m', r)
  {
    match r
    case RIdle =>
    case Searching(q, x, level, snap) =>
      assert On(m', x, level);
    case Iterating(node, from, snap, seen) =>
      if node != NIL {
        assert On(m, node, 0);
        assert On(m', node, 0) && Key(m', node) == Key(m, node);
      }
  }

  lemma WriterLoadKeeps(m: Memory, w: Writer)
    requires Inv(m) && WriterInv(m, w) && w.WSearch?
    ensures WriterInv(m, SearchOn(m, w))
  {
    if Advances(m, AtOrAfter(w.key), Next(m, w.x, w.level)) {
      AdvanceReaches(m, AtOrAfter(w.key), w.x, w.level);
    } else {
      StopIsPredecessor(m, w.x, w.level, w.key);
      MorePredecessors(m, w.prev, w.level, m.maxHeight, w.key, w.x);
      if w.level > 0 {
        assert On(m, w.x, w.level - 1);
      }
    }
  }

  lemma ChooseHeightKeeps(s: State, h: nat)
    requires GlobalInv(s) && Enabled(s, ChooseHeight(h))
    ensures var s' := Apply(s, ChooseHeight(h));
            Inv(s'.mem) && WriterInv(s'.mem, s'.writer) && Extends(s.mem, s'.mem)
  {
    if h > s.mem.maxHeight {
      RaiseHeightInv(s.mem, h);
      RaisedPredecessors(s.mem, s.writer.prev, s.writer.key, h);
    }
  }

  lemma AllocateKeeps(s: State, raw: seq<int>)
    requires GlobalInv(s) && Enabled(s, AllocateNode(raw))
    ensures var s' := Apply(s, AllocateNode(raw));
            Inv(s'.mem) && WriterInv(s'.mem, s'.writer) && Extends(s.mem, s'.mem)
  {
    AllocateInv(s.mem, s.writer.key, raw);
    AllocatedPredecessors(s.mem, s.writer.prev, s.writer.key, raw);
  }

  lemma InitPointerKeeps(s: State)
    requires GlobalInv(s) && Enabled(s, InitPointer)
    ensures var s' := Apply(s, InitPointer);
            Inv(s'.mem) && WriterInv(s'.mem, s'.writer) && Extends(s.mem, s'.mem)
  {
    var m, w := s.mem, s.writer;
    var y := Next(m, w.prev[w.i], w.i);
    PrivateStoreInv(m, w.node, w.i, y);
    PrivateStorePredecessors(m, w.prev, w.i, |m.nodes[w.node].next|, Key(m, w.node), w.node, w.i, y);
    assert On(m, w.prev[w.i], w.i) by { assert Predecessor(m, w.prev[w.i], w.i, Key(m, w.node)); }
  }

  lemma PublishExtends(m: Memory, p: int, n: int)
    requires Inv(m) && Publishable(m, p, n)
    ensures Inv(Publish(m, p, n)) && Extends(m, Publish(m, p, n))
  {
    PublishInv(m, p, n);
    PublishLevels(m, p, n);
  }

  lemma PublishKeeps(s: State)
    requires GlobalInv(s) && Enabled(s, PublishPointer)
    ensures var s' := Apply(s, PublishPointer);
            Inv(s'.mem) && WriterInv(s'.mem, s'.writer) && Extends(s.mem, s'.mem)
  {
    var m, w := s.mem, s.writer;
    var p, n := w.prev[w.i], w.node;
    assert Predecessor(m, p, w.i, Key(m, n));
    PublishExtends(m, p, n);
    if w.i + 1 < |m.nodes[n].next| {
      PublishedNode(m, p, n, w.prev);
    }
  }

  lemma PublishedNode(m: Memory, p: int, n: int, prev: seq<int>)
    requires Inv(m) && Publishable(m, p, n) && NodeInv(m, n, m.linked[n], prev)
    requires m.linked[n] + 1 < |m.nodes[n].next|
    ensures NodeInv(Publish(m, p, n), n, m.linked[n] + 1, prev)
  {
    PublishKeys(m, p, n);
    PublishLevels(m, p, n);
    PublishPredecessors(m, p, n, prev, |m.nodes[n].next|);
    assert |Publish(m, p, n).nodes[n].next| == |m.nodes[n].next|;
  }

  lemma ReadOnKeeps(m: Memory, r: Reader)
    requires Inv(m) && r.Searching? && ReaderInv(m, r)
    ensures ReaderInv(m, ReadOn(m, r))
  {
    var y := Next(m, r.x, r.level);
    if Advances(m, r.q, y) {
      AdvanceReaches(m, r.q, r.x, r.level);
    } else if r.level == 0 {
      StopAnswers(m, r.q, r.x);
    }
  }

  // Nothing lies between a node and its successor, so moving on skips no key of the snapshot.
  lemma NextCovers(m: Memory, node: int, from: Bound, snap: set<int>, seen: seq<int>)
    requires Inv(m) && Entry(m, node, 0) && snap <= Keys(m) && Covered(m, node, from, snap, seen)
    ensures var y := Next(m, node, 0);
            Covered(m, y, from, snap, if y == NIL then seen else seen + [Key(m, y)])
  {
    var y := Next(m, node, 0);
    assert IsSuccessor(m, node, 0, y);
    var seen' := if y == NIL then seen else seen + [Key(m, y)];
    forall k | k in snap && from.Admits(k) && (y == NIL || k <= Key(m, y)) ensures k in seen' {
      if Key(m, node) < k {
        var n := KeyHasEntry(m, k);
        assert Before(m, node, Key(m, n));
        assert seen'[|seen|] == k;
      } else {
        assert k in seen;
      }
    }
  }

  lemma AppendAscending(seen: seq<int>, k: int, from: Bound, keys: set<int>)
    requires AscendingWithin(seen, from, keys) && k in keys
    requires seen != [] && seen[|seen| - 1] < k
    ensures AscendingWithin(seen + [k], from, keys)
  {
    assert from.Admits(seen[|seen| - 1]);
  }

  lemma NextOrderly(m: Memory, node: int, from: Bound, seen: seq<int>)
    requires Inv(m) && Entry(m, node, 0) && Orderly(m, node, from, seen) && Next(m, node, 0) != NIL
    ensures Orderly(m, Next(m, node, 0), from, seen + [Key(m, Next(m, node, 0))])
  {
    var y := Next(m, node, 0);
    assert IsSuccessor(m, node, 0, y);
    AppendAscending(seen, Key(m, y), from, Keys(m));
  }

  lemma NextKeeps(m: Memory, r: Reader)
    requires Inv(m) && r.Iterating? && r.node != NIL && ReaderInv(m, r)
    ensures var y := Next(m, r.node, 0);
            ReaderInv(m, Iterating(y, r.from, r.snap, if y == NIL then r.seen else r.seen + [Key(m, y)]))
  {
    var y := Next(m, r.node, 0);
    assert IsSuccessor(m, r.node, 0, y);
    NextCovers(m, r.node, r.from, r.snap, r.seen);
    if y != NIL {
      NextOrderly(m, r.node, r.from, r.seen);
    }
  }

  lemma SeekToFirstKeeps(m: Memory)
    requires Inv(m)
    ensures ReaderInv(m, Place(m, Next(m, HEAD, 0), Everything, Keys(m)))
  {
    var y := Next(m, HEAD, 0);
    assert On(m, HEAD, 0);
    assert IsSuccessor(m, HEAD, 0, y);
    forall k | k in Keys(m) ensures y != NIL && Key(m, y) <= k {
      var n := KeyHasEntry(m, k);
    }
  }

  // ------------------------------------------------------------ every step

  predicate WriterStep(step: Step) {
    || step.BeginInsert? || step.WriterLoad? || step.ChooseHeight?
    || step.AllocateNode? || step.InitPointer? || step.PublishPointer?
  }

  lemma WriterStepKeeps(s: State, step: Step)
    requires GlobalInv(s) && Enabled(s, step) && WriterStep(step)
    ensures var s' := Apply(s, step);
            Inv(s'.mem) && WriterInv(s'.mem, s'.writer) && Extends(s.mem, s'.mem) && s'.readers == s.readers
  {
    match step
    case BeginInsert(key) =>
      assert On(s.mem, HEAD, TopLevel(s.mem));
    case WriterLoad => WriterLoadKeeps(s.mem, s.writer);
    case ChooseHeight(h) => ChooseHeightKeeps(s, h);
    case AllocateNode(raw) => AllocateKeeps(s, raw);
    case InitPointer => InitPointerKeeps(s);
    case PublishPointer => PublishKeeps(s);
  }

  lemma ReaderStepKeeps(s: State, step: Step)
    requires GlobalInv(s) && Enabled(s, step) && !WriterStep(step)
    ensures GlobalInv(Apply(s, step)) && Apply(s, step).mem == s.mem && Apply(s, step).writer == s.writer
  {
    match step
    case BeginSearch(r, q) =>
      assert On(s.mem, HEAD, TopLevel(s.mem));
    case ReaderLoad(r) => ReadOnKeeps(s.mem, s.readers[r]);
    case SeekToFirst(r) => SeekToFirstKeeps(s.mem);
    case IteratorNext(r) => NextKeeps(s.mem, s.readers[r]);
  }

  lemma StepKeeps(s: State, step: Step)
    requires GlobalInv(s) && Enabled(s, step)
    ensures GlobalInv(Apply(s, step))
    ensures Extends(s.mem, Apply(s, step).mem)
  {
    if WriterStep(step) {
      WriterStepKeeps(s, step);
      var s' := Apply(s, step);
      forall r | r in s'.readers ensures ReaderInv(s'.mem, s'.readers[r]) {
        ReaderStable(s.mem, s'.mem, s.readers[r]);
      }
    } else {
      ReaderStepKeeps(s, step);
    }
  }

  // ------------------------------------------------------------ whole runs

  ghost predicate Moves(s: State, s': State) {
    exists step :: Enabled(s, step) && s' == Apply(s, step)
  }

  ghost predicate MoveAt(tr: seq<State>, i: nat)
    requires i + 1 < |tr|
  {
    Moves(tr[i], tr[i + 1])
  }

  ghost predicate Run(tr: seq<State>) {
    && tr != [] && Initial(tr[0])
    && forall i: nat :: i + 1 < |tr| ==> MoveAt(tr, i)
  }

  lemma {:induction false} RunInvariant(tr: seq<State>, i: nat)
    requires Run(tr) && i < |tr|
    ensures GlobalInv(tr[i])
  {
    if i == 0 {
      var k :| tr[0].mem == Empty(k);
      EmptyInv(k);
    } else {
      RunInvariant(tr, i - 1);
      assert MoveAt(tr, i - 1);
      var step :| Enabled(tr[i - 1], step) && tr[i] == Apply(tr[i - 1], step);
      StepKeeps(tr[i - 1], step);
    }
  }

  lemma MoveKeeps(tr: seq<State>, i: nat) returns (step: Step)
    requires Run(tr) && i + 1 < |tr|
    ensures GlobalInv(tr[i]) && GlobalInv(tr[i + 1])
    ensures Enabled(tr[i], step) && tr[i + 1] == Apply(tr[i], step)
    ensures Extends(tr[i].mem, tr[i + 1].mem)
  {
    RunInvariant(tr, i);
    RunInvariant(tr, i + 1);
    assert MoveAt(tr, i);
    step :| Enabled(tr[i], step) && tr[i + 1] == Apply(tr[i], step);
    StepKeeps(tr[i], step);
  }

  // At every point of every run each level is sorted, free of cycles, and a sublist of the level below.
  lemma LevelsAlwaysSorted(tr: seq<State>, i: nat, level: nat)
    requires Run(tr) && i < |tr| && level < MAX_HEIGHT
    ensures var m := tr[i].mem;
            && Inv(m)
            && Ascending(m, LevelFrom(m, HEAD, level))
            && (forall n :: n in LevelFrom(m, HEAD, level) <==> Entry(m, n, level))
            && (level + 1 < MAX_HEIGHT ==>
                  LevelFrom(m, HEAD, level + 1) == Upper(m, LevelFrom(m, HEAD, level), level + 1))
  {
    RunInvariant(tr, i);
    var m := tr[i].mem;
    LevelFromExact(m, HEAD, level);
    assert forall n :: n in Ahead(m, HEAD, level) <==> Entry(m, n, level);
    if level + 1 < MAX_HEIGHT {
      LevelIsSublist(m, level);
    }
  }

  lemma KeysGrowOnce(tr: seq<State>, i: nat)
    requires Run(tr) && i + 1 < |tr|
    ensures Keys(tr[i].mem) <= Keys(tr[i + 1].mem)
  {
    var step := MoveKeeps(tr, i);
  }

  lemma {:induction false} KeysOnlyGrow(tr: seq<State>, a: nat, b: nat)
    requires Run(tr) && a <= b < |tr|
    ensures Keys(tr[a].mem) <= Keys(tr[b].mem)
    decreases b
  {
    if a >= b {
    } else {
      KeysOnlyGrow(tr, a, b - 1);
      KeysGrowOnce(tr, b - 1);
    }
  }

  // Whatever search a reader runs, its result is exact for the memory its last load saw.
  lemma SearchIsExactAtItsLastLoad(tr: seq<State>, i: nat, r: nat)
    requires Run(tr) && i + 1 < |tr|
    requires r in tr[i].readers && r in tr[i + 1].readers
    requires tr[i].readers[r].Searching? && tr[i + 1].readers[r].Iterating?
    ensures exists found ::
              && Answers(tr[i].mem, tr[i].readers[r].q, found)
              && tr[i + 1].readers[r].node == (if found == HEAD then NIL else found)
    ensures tr[i + 1].mem == tr[i].mem
  {
    var step := MoveKeeps(tr, i);
    assert step == ReaderLoad(r);
    var m, rd := tr[i].mem, tr[i].readers[r];
    assert rd.level == 0;
    StopAnswers(m, rd.q, rd.x);
    assert Answers(m, rd.q, Found(rd.q, rd.x, Next(m, rd.x, 0)));
  }

  /** Reader r runs one search for q: it is called for with move a and returns with move b - 1. */
  ghost predicate OneSearch(tr: seq<State>, a: nat, b: nat, r: nat, q: Query) {
    && a + 1 < b < |tr|
    && Enabled(tr[a], BeginSearch(r, q)) && tr[a + 1] == Apply(tr[a], BeginSearch(r, q))
    && (forall n :: a < n < b ==> r in tr[n].readers && tr[n].readers[r].Searching?)
    && r in tr[b].readers && tr[b].readers[r].Iterating?
  }

  lemma QueryKeptOnce(s: State, s': State, r: nat)
    requires Moves(s, s') && r in s.readers && s.readers[r].Searching?
    ensures r in s'.readers && (s'.readers[r].Searching? ==> s'.readers[r].q == s.readers[r].q)
  {
  }

  lemma {:induction false} SearchKeepsItsQuery(tr: seq<State>, a: nat, b: nat, n: nat, r: nat, q: Query)
    requires Run(tr) && OneSearch(tr, a, b, r, q) && a < n < b
    ensures tr[n].readers[r].q == q
  {
    if n == a + 1 {
    } else {
      SearchKeepsItsQuery(tr, a, b, n - 1, r, q);
      assert MoveAt(tr, n - 1);
      QueryKeptOnce(tr[n - 1], tr[n], r);
    }
  }

  // Each of the three searches, called for with q, answers q for the memory of its last load.
  lemma CallIsAnswered(tr: seq<State>, a: nat, b: nat, r: nat, q: Query) returns (found: int)
    requires Run(tr) && OneSearch(tr, a, b, r, q)
    ensures Answers(tr[b - 1].mem, q, found) && tr[b].mem == tr[b - 1].mem
    ensures tr[b].readers[r].node == if found == HEAD then NIL else found
  {
    SearchKeepsItsQuery(tr, a, b, b - 1, r, q);
    SearchIsExactAtItsLastLoad(tr, b - 1, r);
    found :| Answers(tr[b - 1].mem, q, found) && tr[b].readers[r].node == (if found == HEAD then NIL else found);
  }

  /**
   `Contains(k)` against concurrent inserts: it answers exactly membership at its
   last load, so a key linked on the bottom level before the call is always found
   and a key that was never inserted never is.
   */
  lemma ContainsIsExact(tr: seq<State>, a: nat, b: nat, r: nat, k: int)
    requires Run(tr) && OneSearch(tr, a, b, r, AtOrAfter(k))
    ensures var node := tr[b].readers[r].node;
            (node != NIL && Key(tr[b].mem, node) == k) <==> k in Keys(tr[b - 1].mem)
    ensures Keys(tr[a].mem) <= Keys(tr[b - 1].mem)
  {
    var found := CallIsAnswered(tr, a, b, r, AtOrAfter(k));
    KeysOnlyGrow(tr, a, b - 1);
  }

  // ------------------------------------------------------------ scans

  /** Move a starts a scan of reader r: from the first key, or from the first key at or after a target. */
  ghost predicate Starts(tr: seq<State>, a: nat, r: nat, from: Bound) {
    a + 1 < |tr| &&
    match from
    case Everything => Enabled(tr[a], SeekToFirst(r)) && tr[a + 1] == Apply(tr[a], SeekToFirst(r))
    case From(k) =>
      Enabled(tr[a], BeginSearch(r, AtOrAfter(k))) && tr[a + 1] == Apply(tr[a], BeginSearch(r, AtOrAfter(k)))
    case Nothing => false
  }

  predicate Repositions(step: Step, r: nat) { (step.SeekToFirst? || step.BeginSearch?) && step.r == r }

  /** Move n does not put reader r anywhere else. */
  ghost predicate GoesOn(tr: seq<State>, n: nat, r: nat) {
    n + 1 < |tr| && exists step :: Enabled(tr[n], step) && tr[n + 1] == Apply(tr[n], step) && !Repositions(step, r)
  }

  ghost predicate Scan(tr: seq<State>, a: nat, b: nat, r: nat, from: Bound) {
    a < b < |tr| && Starts(tr, a, r, from) && forall n: nat :: a < n < b ==> GoesOn(tr, n, r)
  }

  /** In state n, reader r's iterator is on a node with key k. */
  ghost predicate StandsOn(tr: seq<State>, n: nat, r: nat, k: int) {
    && n < |tr| && r in tr[n].readers && tr[n].readers[r].Iterating? && tr[n].readers[r].node != NIL
    && Key(tr[n].mem, tr[n].readers[r].node) == k
  }

  ghost predicate StoodOn(tr: seq<State>, a: nat, b: nat, r: nat, k: int) {
    exists n: nat :: a < n <= b && StandsOn(tr, n, r, k)
  }

  /** The recorded history is the history: what the reader has seen is what it stood on since the scan began. */
  ghost predicate Recorded(tr: seq<State>, a: nat, b: nat, r: nat, from: Bound) {
    && a < b < |tr| && r in tr[b].readers && !tr[b].readers[r].RIdle? && tr[b].readers[r].snap == Keys(tr[a].mem)
    && (tr[b].readers[r].Searching? ==> from.From? && tr[b].readers[r].q == AtOrAfter(from.key))
    && (tr[b].readers[r].Iterating? ==>
          && tr[b].readers[r].from == from
          && forall k :: k in tr[b].readers[r].seen ==> StoodOn(tr, a, b, r, k))
  }

  lemma StoodOnStill(tr: seq<State>, a: nat, b: nat, r: nat, k: int)
    requires StoodOn(tr, a, b, r, k)
    ensures StoodOn(tr, a, b + 1, r, k)
  {
  }

  lemma RecordsGoOn(tr: seq<State>, a: nat, b: nat, r: nat, from: Bound)
    requires Recorded(tr, a, b, r, from) && GoesOn(tr, b, r)
    ensures Recorded(tr, a, b + 1, r, from)
  {
    var step :| Enabled(tr[b], step) && tr[b + 1] == Apply(tr[b], step) && !Repositions(step, r);
    var rd, rd' := tr[b].readers[r], tr[b + 1].readers[r];
    if rd'.Iterating? {
      forall k | k in rd'.seen ensures StoodOn(tr, a, b + 1, r, k) {
        if rd.Iterating? && k in rd.seen {
          StoodOnStill(tr, a, b, r, k);
        } else {
          assert StandsOn(tr, b + 1, r, k);
        }
      }
    }
  }

  lemma {:induction false} ScanIsRecorded(tr: seq<State>, a: nat, b: nat, r: nat, from: Bound)
    requires Scan(tr, a, b, r, from)
    ensures Recorded(tr, a, b, r, from)
    decreases b
  {
    if b == a + 1 {
      assert tr[b].readers[r].Iterating? ==>
          forall k :: k in tr[b].readers[r].seen ==> StandsOn(tr, b, r, k);
    } else {
      ScanIsRecorded(tr, a, b - 1, r, from);
      assert GoesOn(tr, b - 1, r);
      RecordsGoOn(tr, a, b - 1, r, from);
    }
  }

  /**
   A scan that has run off the end has stood on every key that was in the list when
   it was started, from its bound on, whatever was inserted meanwhile.
   */
  lemma ScanMissesNothing(tr: seq<State>, a: nat, b: nat, r: nat, from: Bound)
    requires Run(tr) && Scan(tr, a, b, r, from)
    requires r in tr[b].readers && tr[b].readers[r].Iterating? && tr[b].readers[r].node == NIL
    ensures forall k :: k in Keys(tr[a].mem) && from.Admits(k) ==> StoodOn(tr, a, b, r, k)
  {
    ScanIsRecorded(tr, a, b, r, from);
    RunInvariant(tr, b);
    assert ReaderInv(tr[b].mem, tr[b].readers[r]);
  }

  // It never stands on a key that is not in the list or before its bound.
  lemma ScanFindsOnlyKeys(tr: seq<State>, a: nat, b: nat, r: nat, from: Bound, k: int)
    requires Run(tr) && Scan(tr, a, b, r, from) && StandsOn(tr, b, r, k)
    ensures k in Keys(tr[b].mem) && from.Admits(k)
  {
    ScanIsRecorded(tr, a, b, r, from);
    RunInvariant(tr, b);
    assert ReaderInv(tr[b].mem, tr[b].readers[r]);
  }

  lemma SeenGrowsOnce(tr: seq<State>, n: nat, r: nat)
    requires Run(tr) && GoesOn(tr, n, r) && r in tr[n].readers && tr[n].readers[r].Iterating?
    ensures r in tr[n + 1].readers && tr[n + 1].readers[r].Iterating?
    ensures tr[n].readers[r].seen <= tr[n + 1].readers[r].seen
  {
  }

  lemma {:induction false} SeenGrows(tr: seq<State>, a: nat, n: nat, b: nat, r: nat, from: Bound)
    requires Run(tr) && Scan(tr, a, b, r, from) && a < n <= b
    requires r in tr[n].readers && tr[n].readers[r].Iterating?
    ensures r in tr[b].readers && tr[b].readers[r].Iterating? && tr[n].readers[r].seen <= tr[b].readers[r].seen
    decreases b
  {
    if n == b {
    } else {
      SeenGrows(tr, a, n, b - 1, r, from);
      assert GoesOn(tr, b - 1, r);
      SeenGrowsOnce(tr, b - 1, r);
    }
  }

  lemma StandsOnTheLast(tr: seq<State>, n: nat, r: nat, k: int)
    requires Run(tr) && StandsOn(tr, n, r, k)
    ensures var seen := tr[n].readers[r].seen;
            seen != [] && seen[|seen| - 1] == k && forall i :: 0 <= i < |seen| ==> seen[i] <= k
  {
    RunInvariant(tr, n);
    assert ReaderInv(tr[n].mem, tr[n].readers[r]);
  }

  // And it only goes up.
  lemma ScanAscends(tr: seq<State>, a: nat, n: nat, b: nat, r: nat, from: Bound, k: int, l: int)
    requires Run(tr) && Scan(tr, a, b, r, from) && a < n <= b && StandsOn(tr, n, r, k) && StandsOn(tr, b, r, l)
    ensures k <= l
  {
    StandsOnTheLast(tr, n, r, k);
    StandsOnTheLast(tr, b, r, l);
    SeenGrows(tr, a, n, b, r, from);
    assert tr[b].readers[r].seen[|tr[n].readers[r].seen| - 1] == k;
  }

  // The only move that changes the set of keys is the bottom-level publication of the key being inserted.
  lemma OnlyPublicationAddsKeys(s: State, step: Step)
    requires GlobalInv(s) && Enabled(s, step)
    ensures var added := Keys(Apply(s, step).mem) - Keys(s.mem);
            || added == {}
            || (step.PublishPointer? && s.writer.i == 0 && added == {Key(s.mem, s.writer.node)})
  {
    match step
    case ChooseHeight(h) => if h > s.mem.maxHeight { RaiseHeightInv(s.mem, h); }
    case AllocateNode(raw) => AllocateInv(s.mem, s.writer.key, raw);
    case InitPointer =>
      PrivateStoreInv(s.mem, s.writer.node, s.writer.i, Next(s.mem, s.writer.prev[s.writer.i], s.writer.i));
    case PublishPointer =>
      assert Predecessor(s.mem, s.writer.prev[s.writer.i], s.writer.i, Key(s.mem, s.writer.node));
      PublishKeys(s.mem, s.writer.prev[s.writer.i], s.writer.node);
    case _ =>
  }

  // When `Insert` returns its node is linked on every level of its height.
  lemma InsertCompletes(tr: seq<State>, i: nat)
    requires Run(tr) && i + 1 < |tr|
    requires !tr[i].writer.WIdle? && tr[i + 1].writer.WIdle?
    ensures tr[i].writer.WPublish?
    ensures var n := tr[i].writer.node;
            var m := tr[i + 1].mem;
            && Entry(m, n, 0) && Key(m, n) in Keys(m)
            && m.linked[n] == |m.nodes[n].next|
  {
    var step := MoveKeeps(tr, i);
    assert step.PublishPointer?;
    var s := tr[i];
    assert Predecessor(s.mem, s.writer.prev[s.writer.i], s.writer.i, Key(s.mem, s.writer.node));
    PublishLevels(s.mem, s.writer.prev[s.writer.i], s.writer.node);
    assert On(tr[i + 1].mem, s.writer.node, 0);
  }

  /** The writer is at work on the key: it is not linked on the bottom level yet, or has just been. */
  ghost predicate Carries(m: Memory, w: Writer, key: int, keys: set<int>) {
    match w
    case WIdle => false
    case WSearch(k, _, _, _) => k == key && Keys(m) == keys
    case WChoose(k, _) => k == key && Keys(m) == keys
    case WAllocate(k, _, _) => k == key && Keys(m) == keys
    case WInit(node, i, _) => Key(m, node) == key && Keys(m) == if i == 0 then keys else keys + {key}
    case WPublish(node, i, _) => Key(m, node) == key && Keys(m) == if i == 0 then keys else keys + {key}
  }

  lemma PublishCarries(s: State, key: int, keys: set<int>)
    requires GlobalInv(s) && Enabled(s, PublishPointer) && Carries(s.mem, s.writer, key, keys)
    ensures var s' := Apply(s, PublishPointer);
            Keys(s'.mem) == keys + {key} && (!s'.writer.WIdle? ==> Carries(s'.mem, s'.writer, key, keys))
  {
    assert Predecessor(s.mem, s.writer.prev[s.writer.i], s.writer.i, Key(s.mem, s.writer.node));
    PublishKeys(s.mem, s.writer.prev[s.writer.i], s.writer.node);
  }

  lemma StoreCarries(s: State, step: Step, key: int, keys: set<int>)
    requires GlobalInv(s) && Enabled(s, step) && Carries(s.mem, s.writer, key, keys)
    requires step.ChooseHeight? || step.AllocateNode? || step.InitPointer?
    ensures Carries(Apply(s, step).mem, Apply(s, step).writer, key, keys)
  {
    match step
    case ChooseHeight(h) => if h > s.mem.maxHeight { RaiseHeightInv(s.mem, h); }
    case AllocateNode(raw) => AllocateInv(s.mem, s.writer.key, raw);
    case InitPointer =>
      PrivateStoreInv(s.mem, s.writer.node, s.writer.i, Next(s.mem, s.writer.prev[s.writer.i], s.writer.i));
  }

  lemma StepCarries(s: State, step: Step, key: int, keys: set<int>)
    requires GlobalInv(s) && Enabled(s, step) && Carries(s.mem, s.writer, key, keys)
    ensures var s' := Apply(s, step);
            if s'.writer.WIdle? then Keys(s'.mem) == keys + {key} else Carries(s'.mem, s'.writer, key, keys)
  {
    if step.PublishPointer? {
      PublishCarries(s, key, keys);
    } else if step.ChooseHeight? || step.AllocateNode? || step.InitPointer? {
      StoreCarries(s, step, key, keys);
    }
  }

  /** One `Insert(key)`: called with move a, and at work until state b. */
  ghost predicate OneInsert(tr: seq<State>, a: nat, b: nat, key: int) {
    && a < b < |tr|
    && Enabled(tr[a], BeginInsert(key)) && tr[a + 1] == Apply(tr[a], BeginInsert(key))
    && forall n :: a < n < b ==> !tr[n].writer.WIdle?
  }

  lemma {:induction false} InsertCarriesItsKey(tr: seq<State>, a: nat, b: nat, key: int)
    requires Run(tr) && OneInsert(tr, a, b, key)
    ensures if tr[b].writer.WIdle? then Keys(tr[b].mem) == Keys(tr[a].mem) + {key}
            else Carries(tr[b].mem, tr[b].writer, key, Keys(tr[a].mem))
    decreases b
  {
    if b == a + 1 {
    } else {
      InsertCarriesItsKey(tr, a, b - 1, key);
      assert !tr[b - 1].writer.WIdle?;
      var step := MoveKeeps(tr, b - 1);
      StepCarries(tr[b - 1], step, key, Keys(tr[a].mem));
    }
  }

  // An `Insert(key)` that has returned has added its key, and while it lasted no other key was added.
  lemma InsertAddsItsKey(tr: seq<State>, a: nat, n: nat, b: nat, key: int)
    requires Run(tr) && OneInsert(tr, a, b, key) && tr[b].writer.WIdle? && a <= n <= b
    ensures Keys(tr[b].mem) == Keys(tr[a].mem) + {key} && key !in Keys(tr[a].mem)
    ensures Keys(tr[n].mem) == Keys(tr[a].mem) || Keys(tr[n].mem) == Keys(tr[b].mem)
  {
    InsertCarriesItsKey(tr, a, b, key);
    if a < n < b {
      InsertCarriesItsKey(tr, a, n, key);
    }
  }

  // A key whose `Insert` returned before `Contains` was called for is found.
  lemma InsertedIsFound(tr: seq<State>, a: nat, b: nat, c: nat, d: nat, r: nat, key: int)
    requires Run(tr) && OneInsert(tr, a, b, key) && tr[b].writer.WIdle?
    requires b <= c && OneSearch(tr, c, d, r, AtOrAfter(key))
    ensures tr[d].readers[r].node != NIL && Key(tr[d].mem, tr[d].readers[r].node) == key
  {
    InsertAddsItsKey(tr, a, a, b, key);
    KeysOnlyGrow(tr, b, c);
    ContainsIsExact(tr, c, d, r, key);
  }

  // The writer never stores out of bounds and never blocks: its next move is always possible.
  lemma WriterNeverStuck(s: State)
    requires GlobalInv(s) && !s.writer.WIdle?
    ensures exists step :: WriterStep(step) && Enabled(s, step)
  {
    match s.writer
    case WSearch(_, _, _, _) => assert Enabled(s, WriterLoad);
    case WChoose(_, _) => assert Enabled(s, ChooseHeight(1));
    case WAllocate(_, height, _) => assert Enabled(s, AllocateNode(seq(height, _ => NIL)));
    case WInit(node, i, prev) => assert Enabled(s, InitPointer);
    case WPublish(node, i, prev) =>
      assert Predecessor(s.mem, prev[i], i, Key(s.mem, node));
      assert Enabled(s, PublishPointer);
  }

  // Every load brings a search closer to its end: lower, or on the same level past one more entry.
  lemma LoadMakesProgress(m: Memory, r: Reader)
    requires Inv(m) && r.Searching? && ReaderInv(m, r)
    ensures var r' := ReadOn(m, r);
            || r'.Iterating?
            || r'.level < r.level
            || (r'.level == r.level && |Ahead(m, r'.x, r'.level)| < |Ahead(m, r.x, r.level)|)
  {
    if Advances(m, r.q, Next(m, r.x, r.level)) {
      AheadShrinks(m, r.x, r.level);
    }
  }
}
