/**
 The skip list used by one thread: `SkipList` and its iterator refine a sorted set
 of keys. The height drawn at random for a new node is a parameter of `Insert`.
 */
module SkipListSequential {
  import opened SkipListMemory

  function Heights(nodes: seq<Node>): seq<nat> {
    seq(|nodes|, n requires 0 <= n < |nodes| => |nodes[n].next|)
  }

  class SkipList {
    var nodes: seq<Node>
    var maxHeight: nat

    /** Between operations every node is linked on all its levels. */
    ghost function Mem(): Memory
      reads this
    {
      Memory(nodes, Heights(nodes), maxHeight)
    }

    ghost predicate Valid()
      reads this
    {
      Inv(Mem())
    }

    ghost function Contents(): set<int>
      reads this
    {
      Keys(Mem())
    }

    constructor (headKey: int)
      ensures Valid() && Contents() == {}
    {
      nodes := [Node(headKey, seq(MAX_HEIGHT, _ => NIL))];
      maxHeight := 1;
      new;
      EmptyInv(headKey);
      assert Mem() == Empty(headKey);
    }

    /** The first node at or after key, and the last node before key on every level in use. */
    method FindGreaterOrEqual(key: int) returns (node: int, prev: seq<int>)
      requires Valid()
      ensures Answers(Mem(), AtOrAfter(key), node)
      ensures |prev| == MAX_HEIGHT
      ensures forall j: nat :: j < maxHeight ==>
                && On(Mem(), prev[j], j) && Before(Mem(), prev[j], key)
                && (Next(Mem(), prev[j], j) == NIL || key <= Key(Mem(), Next(Mem(), prev[j], j)))
    {
      ghost var m := Mem();
      prev := seq(MAX_HEIGHT, _ => NIL);
      var x: int, level: nat := HEAD, maxHeight - 1;
      while true
        invariant level < maxHeight && |prev| == MAX_HEIGHT
        invariant On(m, x, level) && Before(m, x, key)
        invariant forall j: nat :: level < j < maxHeight ==>
                    && On(m, prev[j], j) && Before(m, prev[j], key)
                    && (Next(m, prev[j], j) == NIL || key <= Key(m, Next(m, prev[j], j)))
        decreases level, |Ahead(m, x, level)|
      {
        var next := nodes[x].next[level];
        assert next == Next(m, x, level);
        assert IsSuccessor(m, x, level, next);
        if next != NIL && nodes[next].key < key {
          AheadShrinks(m, x, level);
          x := next;
        } else {
          prev := prev[level := x];
          if level == 0 {
            StopAnswers(m, AtOrAfter(key), x);
            return next, prev;
          }
          level := level - 1;
        }
      }
    }

    /** The last node before key, or the head. */
    method FindLessThan(key: int) returns (node: int)
      requires Valid()
      ensures Answers(Mem(), LastBefore(key), node)
    {
      ghost var m := Mem();
      var x: int, level: nat := HEAD, maxHeight - 1;
      while true
        invariant level < maxHeight && On(m, x, level) && Before(m, x, key)
        decreases level, |Ahead(m, x, level)|
      {
        var next := nodes[x].next[level];
        assert next == Next(m, x, level);
        assert IsSuccessor(m, x, level, next);
        if next == NIL || nodes[next].key >= key {
          if level == 0 {
            StopAnswers(m, LastBefore(key), x);
            return x;
          }
          level := level - 1;
        } else {
          AheadShrinks(m, x, level);
          x := next;
        }
      }
    }

    /** The last node of the list, or the head. */
    method FindLast() returns (node: int)
      requires Valid()
      ensures Answers(Mem(), Last, node)
    {
      ghost var m := Mem();
      var x: int, level: nat := HEAD, maxHeight - 1;
      while true
        invariant level < maxHeight && On(m, x, level)
        decreases level, |Ahead(m, x, level)|
      {
        var next := nodes[x].next[level];
        assert next == Next(m, x, level);
        assert IsSuccessor(m, x, level, next);
        if next == NIL {
          if level == 0 {
            StopAnswers(m, Last, x);
            return x;
          }
          level := level - 1;
        } else {
          AheadShrinks(m, x, level);
          x := next;
        }
      }
    }

    method Contains(key: int) returns (found: bool)
      requires Valid()
      ensures found <==> key in Contents()
    {
      var x, prev := FindGreaterOrEqual(key);
      found := x != NIL && nodes[x].key == key;
    }

    method Insert(key: int, height: nat)
      requires Valid() && key !in Contents() && 1 <= height <= MAX_HEIGHT
      modifies this
      ensures Valid() && Contents() == old(Contents()) + {key}
      ensures |nodes| == |old(nodes)| + 1 && |nodes[|old(nodes)|].next| == height
      ensures maxHeight == if height > old(maxHeight) then height else old(maxHeight)
    {
      ghost var m := Mem();
      var x, prev := FindGreaterOrEqual(key);
      FoundPredecessors(m, prev, key);
      if height > maxHeight {
        RaisedPredecessors(m, prev, key, height);
        RaiseHeightInv(m, height);
        prev := FillWithHead(prev, maxHeight, height);
        maxHeight := height;
        m := m.(maxHeight := height);
      }
      var raw: seq<int> := *;
      raw := seq(height, j requires 0 <= j < height => if j < |raw| then raw[j] else NIL);
      AllocateInv(m, key, raw);
      AllocatedPredecessors(m, prev, key, raw);
      nodes, x := nodes + [Node(key, raw)], |nodes|;
      Link(x, prev, Allocate(m, key, raw), Keys(m));
    }

    /** Publishes the new node x level by level, bottom first. */
    method Link(x: int, prev: seq<int>, ghost m0: Memory, ghost before: set<int>)
      requires m0.nodes == nodes && m0.maxHeight == maxHeight && x == |nodes| - 1
      requires 0 <= x && Linking(m0, x, 0, |nodes[x].next|, prev, nodes[x].key, before)
      requires forall n :: 0 <= n < x ==> m0.linked[n] == |nodes[n].next|
      modifies this
      ensures Valid() && Contents() == if |old(nodes)[x].next| == 0 then before else before + {old(nodes)[x].key}
      ensures maxHeight == old(maxHeight) && |nodes| == |old(nodes)|
      ensures |nodes[x].next| == |old(nodes)[x].next|
    {
      ghost var m := m0;
      ghost var key := nodes[x].key;
      var i, height := 0, |nodes[x].next|;
      while i < height
        invariant i <= height && m.nodes == nodes && m.maxHeight == maxHeight == old(maxHeight)
        invariant |nodes| == |old(nodes)| && Linking(m, x, i, height, prev, key, before)
        invariant forall n :: 0 <= n < x ==> m.linked[n] == |nodes[n].next|
      {
        LinkStep(m, x, i, height, prev, key, before);
        var y := nodes[prev[i]].next[i];
        nodes := nodes[x := nodes[x].(next := nodes[x].next[i := y])];
        m := SetNext(m, x, i, y);
        nodes := nodes[prev[i] := nodes[prev[i]].(next := nodes[prev[i]].next[i := x])];
        m := Publish(m, prev[i], x);
        i := i + 1;
      }
      assert m == Mem();
    }
  }

  // ------------------------------------------------------------ the insertion loop

  lemma FoundPredecessors(m: Memory, prev: seq<int>, key: int)
    requires Inv(m) && key !in Keys(m) && |prev| == MAX_HEIGHT
    requires forall j: nat :: j < m.maxHeight ==>
               && On(m, prev[j], j) && Before(m, prev[j], key)
               && (Next(m, prev[j], j) == NIL || key <= Key(m, Next(m, prev[j], j)))
    ensures Predecessors(m, prev, 0, m.maxHeight, key)
  {
    forall j: nat | j < m.maxHeight ensures Predecessor(m, prev[j], j, key) {
      StopIsPredecessor(m, prev[j], j, key);
    }
  }

  /** Node x carries key, is linked on the levels below i and is to be linked behind prev on the others. */
  ghost predicate Linking(m: Memory, x: int, i: nat, height: nat, prev: seq<int>, key: int, before: set<int>) {
    && Inv(m)
    && 0 < x < |m.nodes| && Key(m, x) == key && m.linked[x] == i
    && |m.nodes[x].next| == height <= m.maxHeight
    && Keys(m) == (if i == 0 then before else before + {key})
    && key !in before
    && Predecessors(m, prev, i, height, key)
  }

  lemma LinkStep(m: Memory, x: int, i: nat, height: nat, prev: seq<int>, key: int, before: set<int>)
    requires Linking(m, x, i, height, prev, key, before) && i < height
    ensures 0 <= prev[i] < |m.nodes| && i < |m.nodes[prev[i]].next| && prev[i] != x
    ensures var m1 := SetNext(m, x, i, Next(m, prev[i], i));
            && m1.linked == m.linked && |m1.nodes[prev[i]].next| == |m.nodes[prev[i]].next|
            && Linking(Publish(m1, prev[i], x), x, i + 1, height, prev, key, before)
  {
    var p := prev[i];
    assert Predecessor(m, p, i, key);
    PrivateStoreInv(m, x, i, Next(m, p, i));
    PrivateStorePredecessors(m, prev, i, height, key, x, i, Next(m, p, i));
    var m1 := SetNext(m, x, i, Next(m, p, i));
    assert Predecessor(m1, prev[i], i, key);
    assert Publishable(m1, p, x);
    PublishInv(m1, p, x);
    PublishPredecessors(m1, p, x, prev, height);
  }

  // ------------------------------------------------------------ iteration

  class Iterator {
    const list: SkipList
    var node: int

    constructor (list: SkipList)
      ensures this.list == list && node == NIL
    {
      this.list := list;
      node := NIL;
    }

    /** The iterator stands on an entry of the list, or nowhere. */
    ghost predicate Ok()
      reads this, list
    {
      list.Valid() && (node == NIL || Entry(list.Mem(), node, 0))
    }

    function CurrentKey(): int
      reads this, list
      requires Ok() && node != NIL
    {
      list.nodes[node].key
    }

    method Next()
      requires Ok() && node != NIL
      modifies this
      ensures Ok()
      ensures node != NIL ==> CurrentKey() in list.Contents() && old(CurrentKey()) < CurrentKey()
      ensures forall k :: k in list.Contents() && old(CurrentKey()) < k ==> node != NIL && CurrentKey() <= k
    {
      ghost var m, was := list.Mem(), node;
      node := list.nodes[node].next[0];
      assert node == SkipListMemory.Next(m, was, 0);
      assert IsSuccessor(m, was, 0, node);
      forall k | k in list.Contents() && Key(m, was) < k ensures node != NIL && Key(m, node) <= k {
        var n := KeyHasEntry(m, k);
      }
    }

    method Prev()
      requires Ok() && node != NIL
      modifies this
      ensures Ok()
      ensures node != NIL ==> CurrentKey() in list.Contents() && CurrentKey() < old(CurrentKey())
      ensures forall k :: k in list.Contents() && k < old(CurrentKey()) ==> node != NIL && k <= CurrentKey()
    {
      var n := list.FindLessThan(list.nodes[node].key);
      node := n;
      if node == HEAD {
        node := NIL;
      }
    }

    method Seek(target: int)
      requires Ok()
      modifies this
      ensures Ok()
      ensures node != NIL ==> CurrentKey() in list.Contents() && target <= CurrentKey()
      ensures forall k :: k in list.Contents() && target <= k ==> node != NIL && CurrentKey() <= k
    {
      var n, prev := list.FindGreaterOrEqual(target);
      node := n;
    }

    method SeekToFirst()
      requires Ok()
      modifies this
      ensures Ok()
      ensures node != NIL ==> CurrentKey() in list.Contents()
      ensures forall k :: k in list.Contents() ==> node != NIL && CurrentKey() <= k
    {
      ghost var m := list.Mem();
      node := list.nodes[HEAD].next[0];
      assert On(m, HEAD, 0) && node == SkipListMemory.Next(m, HEAD, 0);
      assert IsSuccessor(m, HEAD, 0, node);
      forall k | k in list.Contents() ensures node != NIL && Key(m, node) <= k {
        var n := KeyHasEntry(m, k);
      }
    }

    method SeekToLast()
      requires Ok()
      modifies this
      ensures Ok()
      ensures node != NIL ==> CurrentKey() in list.Contents()
      ensures forall k :: k in list.Contents() ==> node != NIL && k <= CurrentKey()
    {
      var n := list.FindLast();
      node := n;
      if node == HEAD {
        node := NIL;
      }
    }
  }

  /** The keys visited so far: ascending, in the list, and before where the iterator stands. */
  ghost predicate Visited(keys: seq<int>, contents: set<int>, left: set<int>) {
    && (forall i, j :: 0 <= i < j < |keys| ==> keys[i] < keys[j])
    && (forall k :: k in contents <==> k in keys || k in left)
    && (forall k, l :: k in keys && l in left ==> k < l)
  }

  ghost predicate Least(left: set<int>, k: int) {
    k in left && forall l :: l in left ==> k <= l
  }

  lemma VisitOne(keys: seq<int>, contents: set<int>, left: set<int>, k: int)
    requires Visited(keys, contents, left) && Least(left, k)
    ensures Visited(keys + [k], contents, left - {k})
    ensures forall l :: l in contents && k < l <==> l in left - {k}
  {
    var more := keys + [k];
    forall i, j | 0 <= i < j < |more| ensures more[i] < more[j] {
      assert more[i] in keys;
    }
    forall l ensures l in contents && k < l <==> l in left - {k} {
      assert l in keys ==> l < k;
    }
  }

  // SeekToFirst and then Next until the end: every key exactly once, in ascending order.
  method Enumerate(list: SkipList) returns (keys: seq<int>)
    requires list.Valid()
    ensures forall i, j :: 0 <= i < j < |keys| ==> keys[i] < keys[j]
    ensures forall k :: k in keys <==> k in list.Contents()
  {
    ghost var contents := list.Contents();
    var it := new Iterator(list);
    it.SeekToFirst();
    keys := [];
    ghost var left := contents;
    while it.node != NIL
      invariant it.list == list && it.Ok() && list.Contents() == contents && Visited(keys, contents, left)
      invariant if it.node == NIL then left == {} else Least(left, it.CurrentKey())
      decreases left
    {
      var k := it.CurrentKey();
      VisitOne(keys, contents, left, k);
      keys := keys + [k];
      left := left - {k};
      it.Next();
    }
  }

  function KeysOf(m: Memory, s: seq<int>): seq<int> {
    seq(|s|, i requires 0 <= i < |s| => Key(m, s[i]))
  }

  // The bottom level lists every key exactly once, in ascending order.
  lemma IterationEnumerates(m: Memory)
    requires Inv(m)
    ensures var ks := KeysOf(m, LevelFrom(m, HEAD, 0));
            && (forall i, j :: 0 <= i < j < |ks| ==> ks[i] < ks[j])
            && (forall k :: k in ks <==> k in Keys(m))
  {
    var s := LevelFrom(m, HEAD, 0);
    var ks := KeysOf(m, s);
    LevelFromExact(m, HEAD, 0);
    forall k | k in ks ensures k in Keys(m) {
      var i :| 0 <= i < |ks| && ks[i] == k;
      assert s[i] in s;
    }
    forall k | k in Keys(m) ensures k in ks {
      var n := KeyHasEntry(m, k);
      assert n in Ahead(m, HEAD, 0) && n in s;
      var i :| 0 <= i < |s| && s[i] == n;
      assert ks[i] == k;
    }
  }

  // Prev searches, but lands on the node Next came from.
  lemma PrevUndoesNext(m: Memory, n: int, back: int)
    requires Inv(m) && Entry(m, n, 0) && Next(m, n, 0) != NIL
    requires Answers(m, LastBefore(Key(m, Next(m, n, 0))), back)
    ensures back == n
  {
    var y := Next(m, n, 0);
    assert IsSuccessor(m, n, 0, y);
    assert Key(m, n) in Keys(m);
    assert Key(m, n) < Key(m, back) ==> Before(m, n, Key(m, back));
  }

  // And Next lands on the node Prev came from.
  lemma NextUndoesPrev(m: Memory, n: int, back: int)
    requires Inv(m) && Entry(m, n, 0)
    requires Answers(m, LastBefore(Key(m, n)), back)
    ensures Next(m, back, 0) == n
  {
    var y := Next(m, back, 0);
    assert On(m, back, 0);
    assert IsSuccessor(m, back, 0, y);
    assert Key(m, n) in Keys(m);
    assert Key(m, y) in Keys(m);
  }
}
