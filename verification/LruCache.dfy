/**
 The cache of container/lru_cache.h: a list of entries, most recently used first,
 and an index from keys to list nodes. A list iterator is the identity of its node,
 which moving the node within the list keeps.
 */
module LruCache {
  type Key = int
  type Value = int

  datatype Entry = Entry(key: Key, value: Value)

  // ------------------------------------------------------------ the cache as a list of entries

  datatype Op = Get(k: Key) | Put(k: Key, v: Value) | Remove(k: Key) | Clear

  /** The position of a key, or the length if it is not there. */
  function Find(s: seq<Entry>, k: Key): (i: nat)
    ensures i <= |s| && (i < |s| ==> s[i].key == k)
    ensures forall j :: 0 <= j < i ==> s[j].key != k
  {
    if s == [] || s[0].key == k then 0
    else
      var i := 1 + Find(s[1..], k);
      assert forall j :: 1 <= j < i ==> s[j] == s[1..][j - 1];
      i
  }

  predicate Has(s: seq<Entry>, k: Key) { Find(s, k) < |s| }

  function Without<T>(s: seq<T>, i: nat): (r: seq<T>)
    requires i < |s|
    ensures |r| == |s| - 1 && forall j :: 0 <= j < |r| ==> r[j] == if j < i then s[j] else s[j + 1]
  {
    s[..i] + s[i + 1..]
  }

  function Dropped(s: seq<Entry>, k: Key): seq<Entry> {
    if Has(s, k) then Without(s, Find(s, k)) else s
  }

  function Trimmed(s: seq<Entry>, capacity: nat): seq<Entry> {
    if |s| > capacity then s[..|s| - 1] else s
  }

  function Apply(s: seq<Entry>, capacity: nat, op: Op): seq<Entry> {
    match op
    case Get(k) => if Has(s, k) then [s[Find(s, k)]] + Dropped(s, k) else s
    case Put(k, v) =>
      if Has(s, k) && s[Find(s, k)].value == v then s
      else Trimmed([Entry(k, v)] + Dropped(s, k), capacity)
    case Remove(k) => Dropped(s, k)
    case Clear => []
  }

  function Run(capacity: nat, ops: seq<Op>): seq<Entry> {
    if ops == [] then [] else Apply(Run(capacity, ops[..|ops| - 1]), capacity, ops[|ops| - 1])
  }

  // ------------------------------------------------------------ what a run leaves in the cache

  ghost predicate KeysDistinct(s: seq<Entry>) {
    forall i, j :: 0 <= i < j < |s| ==> s[i].key != s[j].key
  }

  /** The operation uses the key: a hit by Get, or a Put that changes what is stored. */
  ghost predicate Touches(s: seq<Entry>, op: Op, k: Key) {
    match op
    case Get(x) => x == k && Has(s, k)
    case Put(x, v) => x == k && !(Has(s, k) && s[Find(s, k)].value == v)
    case _ => false
  }

  /** When the key was last used, counting from one; zero if never. */
  ghost function LastUse(capacity: nat, ops: seq<Op>, k: Key): (t: nat)
    ensures t <= |ops|
  {
    if ops == [] then 0
    else
      var before := ops[..|ops| - 1];
      if Touches(Run(capacity, before), ops[|ops| - 1], k) then |ops| else LastUse(capacity, before, k)
  }

  /** The value of the last Put of the key. */
  ghost function LastPut(ops: seq<Op>, k: Key): Value {
    if ops == [] then 0
    else match ops[|ops| - 1]
      case Put(x, v) => if x == k then v else LastPut(ops[..|ops| - 1], k)
      case _ => LastPut(ops[..|ops| - 1], k)
  }

  ghost predicate ByLastUse(s: seq<Entry>, capacity: nat, ops: seq<Op>) {
    forall i, j :: 0 <= i < j < |s| ==> LastUse(capacity, ops, s[i].key) > LastUse(capacity, ops, s[j].key)
  }

  ghost predicate Latest(s: seq<Entry>, ops: seq<Op>) {
    forall i :: 0 <= i < |s| ==> s[i].value == LastPut(ops, s[i].key)
  }

  lemma FindDistinct(s: seq<Entry>, i: nat)
    requires KeysDistinct(s) && i < |s|
    ensures Find(s, s[i].key) == i
  {
    assert Find(s, s[i].key) <= i;
  }

  lemma DroppedKeeps(s: seq<Entry>, k: Key)
    requires KeysDistinct(s)
    ensures KeysDistinct(Dropped(s, k))
    ensures forall i :: 0 <= i < |Dropped(s, k)| ==> Dropped(s, k)[i].key != k
  {
  }

  lemma ApplyKeepsShape(s: seq<Entry>, capacity: nat, op: Op)
    requires KeysDistinct(s) && |s| <= capacity
    ensures KeysDistinct(Apply(s, capacity, op)) && |Apply(s, capacity, op)| <= capacity
  {
    match op
    case Get(k) => DroppedKeeps(s, k);
    case Put(k, v) => DroppedKeeps(s, k);
    case Remove(k) => DroppedKeeps(s, k);
    case Clear =>
  }

  lemma After(capacity: nat, before: seq<Op>, op: Op, k: Key)
    ensures Run(capacity, before + [op]) == Apply(Run(capacity, before), capacity, op)
    ensures LastUse(capacity, before + [op], k) ==
            if Touches(Run(capacity, before), op, k) then |before| + 1 else LastUse(capacity, before, k)
    ensures LastPut(before + [op], k) == if op.Put? && op.k == k then op.v else LastPut(before, k)
  {
    assert (before + [op])[..|before|] == before;
  }

  // Using a key puts its entry in front of entries that were used before.
  lemma FrontIsLatest(capacity: nat, before: seq<Op>, op: Op, e: Entry, rest: seq<Entry>)
    requires Touches(Run(capacity, before), op, e.key)
    requires ByLastUse(rest, capacity, before) && forall i :: 0 <= i < |rest| ==> rest[i].key != e.key
    ensures ByLastUse([e] + rest, capacity, before + [op])
  {
    var t := [e] + rest;
    After(capacity, before, op, e.key);
    forall i, j | 0 <= i < j < |t|
      ensures LastUse(capacity, before + [op], t[i].key) > LastUse(capacity, before + [op], t[j].key)
    {
      After(capacity, before, op, t[i].key);
      After(capacity, before, op, t[j].key);
    }
  }

  lemma UntouchedOrder(capacity: nat, before: seq<Op>, op: Op, t: seq<Entry>)
    requires ByLastUse(t, capacity, before)
    requires forall i :: 0 <= i < |t| ==> !Touches(Run(capacity, before), op, t[i].key)
    ensures ByLastUse(t, capacity, before + [op])
  {
    forall i, j | 0 <= i < j < |t|
      ensures LastUse(capacity, before + [op], t[i].key) > LastUse(capacity, before + [op], t[j].key)
    {
      After(capacity, before, op, t[i].key);
      After(capacity, before, op, t[j].key);
    }
  }

  lemma DroppedOrder(capacity: nat, ops: seq<Op>, s: seq<Entry>, k: Key)
    requires ByLastUse(s, capacity, ops)
    ensures ByLastUse(Dropped(s, k), capacity, ops)
  {
  }

  lemma OrderKept(capacity: nat, before: seq<Op>, op: Op)
    requires var s := Run(capacity, before); KeysDistinct(s) && ByLastUse(s, capacity, before)
    ensures ByLastUse(Run(capacity, before + [op]), capacity, before + [op])
  {
    var s := Run(capacity, before);
    After(capacity, before, op, 0);
    match op
    case Get(k) =>
      if Has(s, k) {
        DroppedKeeps(s, k);
        DroppedOrder(capacity, before, s, k);
        FrontIsLatest(capacity, before, op, s[Find(s, k)], Dropped(s, k));
      } else {
        UntouchedOrder(capacity, before, op, s);
      }
    case Put(k, v) =>
      if Has(s, k) && s[Find(s, k)].value == v {
        UntouchedOrder(capacity, before, op, s);
      } else {
        DroppedKeeps(s, k);
        DroppedOrder(capacity, before, s, k);
        FrontIsLatest(capacity, before, op, Entry(k, v), Dropped(s, k));
      }
    case Remove(k) =>
      DroppedOrder(capacity, before, s, k);
      UntouchedOrder(capacity, before, op, Dropped(s, k));
    case Clear =>
  }

  lemma SameValue(s: seq<Entry>, k: Key)
    requires KeysDistinct(s) && Has(s, k)
    ensures forall i :: 0 <= i < |s| && s[i].key == k ==> s[i].value == s[Find(s, k)].value
  {
    forall i | 0 <= i < |s| && s[i].key == k ensures s[i].value == s[Find(s, k)].value {
      FindDistinct(s, i);
    }
  }

  // An entry after an operation stood in the cache before, or is the one just put.
  lemma FromBefore(s: seq<Entry>, capacity: nat, op: Op, i: nat)
    requires KeysDistinct(s) && i < |Apply(s, capacity, op)|
    ensures var e := Apply(s, capacity, op)[i];
            if op.Put? && e.key == op.k then e.value == op.v else e in s
  {
    if op.Put? {
      DroppedKeeps(s, op.k);
      if Has(s, op.k) {
        SameValue(s, op.k);
      }
    }
  }

  lemma ValuesKept(capacity: nat, before: seq<Op>, op: Op)
    requires var s := Run(capacity, before); KeysDistinct(s) && Latest(s, before)
    ensures Latest(Run(capacity, before + [op]), before + [op])
  {
    var s, t := Run(capacity, before), Run(capacity, before + [op]);
    forall i | 0 <= i < |t| ensures t[i].value == LastPut(before + [op], t[i].key) {
      After(capacity, before, op, t[i].key);
      FromBefore(s, capacity, op, i);
    }
  }

  // After any run the cache holds at most `capacity` keys, each once, latest used first, with the value last put.
  lemma {:induction false} RunInvariant(capacity: nat, ops: seq<Op>)
    ensures var s := Run(capacity, ops);
            KeysDistinct(s) && |s| <= capacity && ByLastUse(s, capacity, ops) && Latest(s, ops)
  {
    if ops == [] {
    } else {
      var before, op := ops[..|ops| - 1], ops[|ops| - 1];
      assert ops == before + [op];
      RunInvariant(capacity, before);
      ApplyKeepsShape(Run(capacity, before), capacity, op);
      OrderKept(capacity, before, op);
      ValuesKept(capacity, before, op);
    }
  }

  lemma HasIndex(s: seq<Entry>, k: Key, i: nat)
    requires i < |s| && s[i].key == k
    ensures Has(s, k)
  {
  }

  lemma StillHas(s: seq<Entry>, k: Key, x: Key, front: Entry)
    requires Has(s, x) && x != k
    ensures Has([front] + Dropped(s, k), x)
  {
    var i, d := Find(s, x), Dropped(s, k);
    var j := if Has(s, k) && Find(s, k) < i then i - 1 else i;
    assert d[j] == s[i];
    var t := [front] + d;
    assert t[j + 1] == d[j];
    HasIndex(t, x, j + 1);
  }

  // A Put that loses another key does so from a full cache, and loses the key least recently used and no other.
  lemma VictimIsLeastRecentlyUsed(capacity: nat, ops: seq<Op>, k: Key, v: Value, lost: Key, x: Key)
    requires Has(Run(capacity, ops), lost) && lost != k && lost != x
    requires !Has(Apply(Run(capacity, ops), capacity, Put(k, v)), lost)
    ensures |Run(capacity, ops)| == capacity && !Has(Run(capacity, ops), k)
    ensures Has(Run(capacity, ops), x) ==>
              && LastUse(capacity, ops, lost) < LastUse(capacity, ops, x)
              && Has(Apply(Run(capacity, ops), capacity, Put(k, v)), x)
  {
    var s := Run(capacity, ops);
    RunInvariant(capacity, ops);
    LostFromFull(s, capacity, k, v, lost);
    if Has(s, x) {
      OthersSurvive(s, Entry(k, v), x);
    }
  }

  lemma LostFromFull(s: seq<Entry>, capacity: nat, k: Key, v: Value, lost: Key)
    requires |s| <= capacity && Has(s, lost) && lost != k && !Has(Apply(s, capacity, Put(k, v)), lost)
    ensures |s| == capacity && !Has(s, k) && s[|s| - 1].key == lost
    ensures Apply(s, capacity, Put(k, v)) == ([Entry(k, v)] + s)[..|s|]
  {
    var t := [Entry(k, v)] + Dropped(s, k);
    StillHas(s, k, lost, Entry(k, v));
    LostByTrimming(t, capacity, lost);
    assert |t| == |s| + 1 && t[|s|] == s[|s| - 1];
  }

  lemma OthersSurvive(s: seq<Entry>, e: Entry, x: Key)
    requires Has(s, x) && s[|s| - 1].key != x
    ensures Find(s, x) < |s| - 1 && Has(([e] + s)[..|s|], x)
  {
    assert ([e] + s)[..|s|][Find(s, x) + 1].key == x;
  }

  lemma LostByTrimming(t: seq<Entry>, capacity: nat, lost: Key)
    requires Has(t, lost) && !Has(Trimmed(t, capacity), lost)
    ensures |t| > capacity && t[|t| - 1].key == lost
  {
    var front := t[..|t| - 1];
    assert forall i :: 0 <= i < |front| ==> front[i] == t[i];
  }

  // ------------------------------------------------------------ which keys are in the cache

  lemma InFront(s: seq<Entry>, k: Key, x: Key)
    requires KeysDistinct(s) && Has(s, k)
    ensures Has([s[Find(s, k)]] + Dropped(s, k), x) <==> Has(s, x)
  {
    var t := [s[Find(s, k)]] + Dropped(s, k);
    if Has(s, x) {
      if x == k {
        HasIndex(t, k, 0);
      } else {
        StillHas(s, k, x, s[Find(s, k)]);
      }
    }
  }

  lemma AfterDropping(s: seq<Entry>, k: Key, x: Key)
    requires KeysDistinct(s)
    ensures Has(Dropped(s, k), x) <==> Has(s, x) && x != k
  {
    DroppedKeeps(s, k);
    if Has(s, x) && x != k {
      var i := Find(s, x);
      HasIndex(Dropped(s, k), x, if Has(s, k) && Find(s, k) < i then i - 1 else i);
    }
  }

  // Get changes no membership, Remove takes out its key and Clear all of them; Put leaves its key
  // in the cache with its value unless there is no room at all, and adds no other.
  lemma Membership(s: seq<Entry>, capacity: nat, op: Op, x: Key)
    requires KeysDistinct(s) && |s| <= capacity
    ensures op.Get? ==> (Has(Apply(s, capacity, op), x) <==> Has(s, x))
    ensures op.Remove? ==> (Has(Apply(s, capacity, op), x) <==> Has(s, x) && x != op.k)
    ensures op.Clear? ==> !Has(Apply(s, capacity, op), x)
    ensures op.Put? && x == op.k ==>
              var t := Apply(s, capacity, op);
              (Has(t, x) <==> capacity > 0) && (Has(t, x) ==> t[Find(t, x)].value == op.v)
    ensures op.Put? && x != op.k ==> (Has(Apply(s, capacity, op), x) ==> Has(s, x))
  {
    match op
    case Get(k) => if Has(s, k) { InFront(s, k, x); }
    case Remove(k) => AfterDropping(s, k, x);
    case Put(k, v) => PutMembership(s, capacity, k, v, x);
    case Clear =>
  }

  lemma PutMembership(s: seq<Entry>, capacity: nat, k: Key, v: Value, x: Key)
    requires KeysDistinct(s) && |s| <= capacity
    ensures var t := Apply(s, capacity, Put(k, v));
            if x == k then (Has(t, x) <==> capacity > 0) && (Has(t, x) ==> t[Find(t, x)].value == v)
            else Has(t, x) ==> Has(s, x)
  {
    var t := Apply(s, capacity, Put(k, v));
    if x == k {
      if Has(s, k) && s[Find(s, k)].value == v {
      } else if capacity > 0 {
        HasIndex(t, k, 0);
      }
    } else if Has(t, x) {
      FromBefore(s, capacity, Put(k, v), Find(t, x));
      var i :| 0 <= i < |s| && s[i] == t[Find(t, x)];
      HasIndex(s, x, i);
    }
  }

  lemma TwoMore(capacity: nat, ops: seq<Op>, op1: Op, op2: Op)
    ensures Run(capacity, ops + [op1, op2]) == Apply(Apply(Run(capacity, ops), capacity, op1), capacity, op2)
  {
    assert ops + [op1, op2] == (ops + [op1]) + [op2];
    After(capacity, ops, op1, 0);
    After(capacity, ops + [op1], op2, 0);
  }

  // In a full cache a new key pushes out the last one.
  lemma PushesOutLast(s: seq<Entry>, x: Key, w: Value, k: Key)
    requires KeysDistinct(s) && s != [] && !Has(s, x) && Has(s, k)
    ensures Has(Apply(s, |s|, Put(x, w)), k) <==> s[|s| - 1].key != k
  {
    var t := Apply(s, |s|, Put(x, w));
    assert t == ([Entry(x, w)] + s)[..|s|];
    if s[|s| - 1].key != k {
      OthersSurvive(s, Entry(x, w), k);
    }
  }

  // What makes a key safe from the next eviction: a Get always, a Put only if it changes the value.
  lemma Refreshed(capacity: nat, ops: seq<Op>, op: Op, k: Key, x: Key, w: Value)
    requires var s := Run(capacity, ops); |s| == capacity >= 2 && Has(s, k) && !Has(s, x)
    requires (op.Get? || op.Put?) && op.k == k
    ensures var s := Run(capacity, ops);
            Has(Run(capacity, ops + [op, Put(x, w)]), k) <==>
              op.Get? || op.v != s[Find(s, k)].value || s[|s| - 1].key != k
  {
    var s := Run(capacity, ops);
    RunInvariant(capacity, ops);
    TwoMore(capacity, ops, op, Put(x, w));
    var t := Apply(s, capacity, op);
    ApplyKeepsShape(s, capacity, op);
    Membership(s, capacity, op, x);
    Membership(s, capacity, op, k);
    assert |t| == capacity;
    PushesOutLast(t, x, w, k);
    if op.Get? || op.v != s[Find(s, k)].value {
      assert t[0].key == k;
    }
  }

  // ------------------------------------------------------------ the same from the history alone

  /** When the key was last removed, alone or with all others, counting from one; zero if never. */
  ghost function LastGone(ops: seq<Op>, k: Key): (t: nat)
    ensures t <= |ops|
  {
    if ops == [] then 0
    else
      var op := ops[|ops| - 1];
      if op == Clear || op == Remove(k) then |ops| else LastGone(ops[..|ops| - 1], k)
  }

  /** When the key was last used, as LastUse says, without looking into the list. */
  ghost function UsedAt(capacity: nat, ops: seq<Op>, k: Key): (t: nat)
    ensures t <= |ops|
    decreases |ops|, 0
  {
    if ops == [] then 0
    else
      var before, op := ops[..|ops| - 1], ops[|ops| - 1];
      var used := match op
        case Get(x) => x == k && Stays(capacity, before, k)
        case Put(x, v) => x == k && !(Stays(capacity, before, k) && LastPut(before, k) == v)
        case _ => false;
      if used then |ops| else UsedAt(capacity, before, k)
  }

  ghost function Named(ops: seq<Op>): set<Key> {
    set i | 0 <= i < |ops| && !ops[i].Clear? :: ops[i].k
  }

  /** The keys used after time t and not removed since. */
  ghost function Newer(capacity: nat, ops: seq<Op>, t: nat): set<Key>
    decreases |ops|, 1
  {
    set x | x in Named(ops) && UsedAt(capacity, ops, x) > t && UsedAt(capacity, ops, x) > LastGone(ops, x)
  }

  /** The key was not removed after its last use, and there were never `capacity` newer keys since. */
  ghost predicate Stays(capacity: nat, ops: seq<Op>, k: Key)
    decreases |ops|, 3
  {
    var t := UsedAt(capacity, ops, k);
    t > LastGone(ops, k) && Roomy(capacity, ops, t)
  }

  /** From time t on there were never `capacity` keys newer than t. */
  ghost predicate Roomy(capacity: nat, ops: seq<Op>, t: nat)
    decreases |ops|, 2
  {
    forall n :: t <= n <= |ops| ==> |Newer(capacity, ops[..n], t)| < capacity
  }

  /** The two notions of use agree in every prefix. */
  ghost predicate Agree(capacity: nat, ops: seq<Op>) {
    forall n, x :: 0 <= n <= |ops| ==> UsedAt(capacity, ops[..n], x) == LastUse(capacity, ops[..n], x)
  }

  lemma GoneAfter(before: seq<Op>, op: Op, k: Key)
    ensures LastGone(before + [op], k) == if op == Clear || op == Remove(k) then |before| + 1 else LastGone(before, k)
  {
    assert (before + [op])[..|before|] == before;
  }

  lemma Split(ops: seq<Op>, n: nat)
    requires n < |ops|
    ensures ops[..n + 1] == ops[..n] + [ops[n]]
  {
  }

  // A key that is in the cache and is not being used was in it before, and is not being removed.
  lemma WasThere(capacity: nat, before: seq<Op>, op: Op, k: Key)
    requires Has(Run(capacity, before + [op]), k) && !Touches(Run(capacity, before), op, k)
    ensures Has(Run(capacity, before), k) && op != Clear && op != Remove(k)
  {
    RunInvariant(capacity, before);
    After(capacity, before, op, k);
    Membership(Run(capacity, before), capacity, op, k);
  }

  lemma {:induction false} PresentIsLive(capacity: nat, ops: seq<Op>, k: Key)
    requires Has(Run(capacity, ops), k)
    ensures LastUse(capacity, ops, k) > LastGone(ops, k)
  {
    if ops == [] {
      assert false;
    } else {
      var before, op := ops[..|ops| - 1], ops[|ops| - 1];
      assert ops == before + [op];
      After(capacity, before, op, k);
      GoneAfter(before, op, k);
      if !Touches(Run(capacity, before), op, k) {
        WasThere(capacity, before, op, k);
        PresentIsLive(capacity, before, k);
      }
    }
  }

  // While a key is in the cache, so is every key used later and not removed since.
  lemma {:induction false} NewerIsPresent(capacity: nat, ops: seq<Op>, k: Key, x: Key)
    requires Has(Run(capacity, ops), k) && LastUse(capacity, ops, x) > LastUse(capacity, ops, k)
    requires LastUse(capacity, ops, x) > LastGone(ops, x)
    ensures Has(Run(capacity, ops), x)
  {
    if ops == [] {
      assert false;
    } else {
      var before, op := ops[..|ops| - 1], ops[|ops| - 1];
      var s := Run(capacity, before);
      assert ops == before + [op];
      After(capacity, before, op, k); After(capacity, before, op, x);
      GoneAfter(before, op, x);
      RunInvariant(capacity, before);
      RunInvariant(capacity, ops);
      Membership(s, capacity, op, x);
      if !Touches(s, op, x) {
        WasThere(capacity, before, op, k);
        NewerIsPresent(capacity, before, k, x);
        if !Has(Run(capacity, ops), x) {
          VictimIsLeastRecentlyUsed(capacity, before, op.k, op.v, x, k);
        }
      }
    }
  }

  // From its last use on, a key that is in the cache has been in it all the time.
  lemma {:induction false} PresentSince(capacity: nat, ops: seq<Op>, k: Key, n: nat)
    requires Has(Run(capacity, ops), k) && LastUse(capacity, ops, k) <= n <= |ops|
    ensures Has(Run(capacity, ops[..n]), k) && LastUse(capacity, ops[..n], k) == LastUse(capacity, ops, k)
    decreases |ops|
  {
    if n == |ops| {
      assert ops[..n] == ops;
    } else {
      var before, op := ops[..|ops| - 1], ops[|ops| - 1];
      assert ops == before + [op];
      After(capacity, before, op, k);
      WasThere(capacity, before, op, k);
      PresentSince(capacity, before, k, n);
      assert before[..n] == ops[..n];
    }
  }

  lemma {:induction false} UseIsKept(capacity: nat, ops: seq<Op>, k: Key, n: nat)
    requires LastUse(capacity, ops, k) <= n <= |ops|
    ensures LastUse(capacity, ops[..n], k) == LastUse(capacity, ops, k)
    decreases |ops|
  {
    if n == |ops| {
      assert ops[..n] == ops;
    } else {
      var before := ops[..|ops| - 1];
      UseIsKept(capacity, before, k, n);
      assert before[..n] == ops[..n];
    }
  }

  lemma {:induction false} GoneIsKept(ops: seq<Op>, k: Key, n: nat)
    requires LastGone(ops, k) <= n <= |ops|
    ensures LastGone(ops[..n], k) == LastGone(ops, k)
    decreases |ops|
  {
    if n == |ops| {
      assert ops[..n] == ops;
    } else {
      var before := ops[..|ops| - 1];
      GoneIsKept(before, k, n);
      assert before[..n] == ops[..n];
    }
  }

  lemma {:induction false} UsedIsNamed(capacity: nat, ops: seq<Op>, x: Key)
    requires LastUse(capacity, ops, x) > 0
    ensures x in Named(ops)
  {
    if ops == [] {
      assert false;
    } else {
      var before, op := ops[..|ops| - 1], ops[|ops| - 1];
      if Touches(Run(capacity, before), op, x) {
        assert ops[|ops| - 1].k == x;
      } else {
        UsedIsNamed(capacity, before, x);
        assert forall i :: 0 <= i < |before| ==> before[i] == ops[i];
      }
    }
  }

  function KeysIn(s: seq<Entry>): (keys: set<Key>)
    ensures forall x :: x in keys <==> Has(s, x)
  {
    assert forall x :: Has(s, x) ==> s[Find(s, x)].key == x;
    set i | 0 <= i < |s| :: s[i].key
  }

  lemma {:induction false} KeyCount(s: seq<Entry>)
    requires KeysDistinct(s)
    ensures |KeysIn(s)| == |s|
  {
    if s == [] {
      assert KeysIn(s) == {};
    } else {
      var front, k := s[..|s| - 1], s[|s| - 1].key;
      KeyCount(front);
      forall x ensures x in KeysIn(s) <==> x in KeysIn(front) || x == k {
        assert Has(front, x) ==> s[Find(front, x)].key == x;
        assert Has(s, x) && x != k ==> front[Find(s, x)].key == x;
      }
      assert !Has(front, k);
      assert KeysIn(s) == KeysIn(front) + {k};
    }
  }

  lemma SubsetCount(a: set<Key>, b: set<Key>)
    requires a <= b
    ensures |a| <= |b|
  {
    assert b == a + (b - a);
  }

  // Fewer than `capacity` keys are newer than one that is in the cache.
  lemma FewAreNewer(capacity: nat, ops: seq<Op>, k: Key)
    requires Has(Run(capacity, ops), k) && Agree(capacity, ops)
    ensures |Newer(capacity, ops, LastUse(capacity, ops, k))| < capacity
  {
    var s, newer := Run(capacity, ops), Newer(capacity, ops, LastUse(capacity, ops, k));
    assert ops[..|ops|] == ops;
    RunInvariant(capacity, ops);
    KeyCount(s);
    forall x | x in newer ensures x in KeysIn(s) - {k} {
      NewerIsPresent(capacity, ops, k, x);
    }
    SubsetCount(newer, KeysIn(s) - {k});
  }

  // When a key is pushed out, `capacity` keys are newer.
  lemma PushedOut(capacity: nat, before: seq<Op>, op: Op, k: Key)
    requires Has(Run(capacity, before), k) && !Has(Run(capacity, before + [op]), k)
    requires op != Clear && op != Remove(k) && Agree(capacity, before + [op])
    ensures |Newer(capacity, before + [op], LastUse(capacity, before, k))| >= capacity
  {
    var s, s', ops := Run(capacity, before), Run(capacity, before + [op]), before + [op];
    After(capacity, before, op, k);
    RunInvariant(capacity, before);
    RunInvariant(capacity, ops);
    Membership(s, capacity, op, k);
    LostFromFull(s, capacity, op.k, op.v, k);
    assert ops[..|ops|] == ops;
    forall x | x in KeysIn(s') ensures x in Newer(capacity, ops, LastUse(capacity, before, k)) {
      PresentIsLive(capacity, ops, x);
      UsedIsNamed(capacity, ops, x);
      After(capacity, before, op, x);
      NewerThanLost(capacity, before, op, k, x);
    }
    KeyCount(s');
    SubsetCount(KeysIn(s'), Newer(capacity, ops, LastUse(capacity, before, k)));
  }

  lemma NewerThanLost(capacity: nat, before: seq<Op>, op: Op, k: Key, x: Key)
    requires Has(Run(capacity, before), k) && !Has(Run(capacity, before + [op]), k) && op.Put? && op.k != k
    requires Has(Run(capacity, before + [op]), x)
    ensures LastUse(capacity, before + [op], x) > LastUse(capacity, before, k)
  {
    After(capacity, before, op, x);
    After(capacity, before, op, k);
    if !Touches(Run(capacity, before), op, x) {
      WasThere(capacity, before, op, x);
      VictimIsLeastRecentlyUsed(capacity, before, op.k, op.v, k, x);
    }
  }

  lemma StaysOneMore(capacity: nat, ops: seq<Op>, k: Key, n: nat)
    requires Agree(capacity, ops) && n < |ops| && Has(Run(capacity, ops[..n]), k)
    requires LastUse(capacity, ops, k) <= n && LastGone(ops, k) <= n
    requires |Newer(capacity, ops[..n + 1], LastUse(capacity, ops, k))| < capacity
    ensures Has(Run(capacity, ops[..n + 1]), k)
  {
    var before, op := ops[..n], ops[n];
    Split(ops, n);
    UseIsKept(capacity, ops, k, n);
    GoneIsKept(ops, k, n + 1);
    GoneAfter(before, op, k);
    AgreePrefix(capacity, ops, n + 1);
    if !Has(Run(capacity, before + [op]), k) {
      PushedOut(capacity, before, op, k);
    }
  }

  lemma PresentAtUse(capacity: nat, ops: seq<Op>, k: Key)
    requires LastUse(capacity, ops, k) > 0 && capacity > 0
    ensures Has(Run(capacity, ops[..LastUse(capacity, ops, k)]), k)
  {
    var t := LastUse(capacity, ops, k);
    var before, op := ops[..t - 1], ops[t - 1];
    Split(ops, t - 1);
    UseIsKept(capacity, ops, k, t);
    UsedNow(capacity, before, op, k);
    RunInvariant(capacity, before);
    After(capacity, before, op, k);
    Membership(Run(capacity, before), capacity, op, k);
  }

  // With never so many newer keys a key stays from its last use on.
  lemma {:induction false} StaysUntil(capacity: nat, ops: seq<Op>, k: Key, t: nat, n: nat)
    requires Agree(capacity, ops) && t == LastUse(capacity, ops, k) > LastGone(ops, k) && Roomy(capacity, ops, t)
    requires t <= n <= |ops|
    ensures Has(Run(capacity, ops[..n]), k)
    decreases n
  {
    assert |Newer(capacity, ops[..n], t)| < capacity;
    if n == t {
      PresentAtUse(capacity, ops, k);
    } else {
      StaysUntil(capacity, ops, k, t, n - 1);
      StaysOneMore(capacity, ops, k, n - 1);
    }
  }

  lemma UsedNow(capacity: nat, before: seq<Op>, op: Op, k: Key)
    requires LastUse(capacity, before + [op], k) == |before| + 1
    ensures Touches(Run(capacity, before), op, k)
  {
    After(capacity, before, op, k);
  }

  lemma AgreePrefix(capacity: nat, ops: seq<Op>, n: nat)
    requires Agree(capacity, ops) && n <= |ops|
    ensures Agree(capacity, ops[..n])
  {
    forall i, x | 0 <= i <= n ensures UsedAt(capacity, ops[..n][..i], x) == LastUse(capacity, ops[..n][..i], x) {
      assert ops[..n][..i] == ops[..i];
    }
  }

  lemma StaysIfPresent(capacity: nat, ops: seq<Op>, k: Key)
    requires Agree(capacity, ops) && Has(Run(capacity, ops), k)
    ensures Stays(capacity, ops, k)
  {
    var t := LastUse(capacity, ops, k);
    assert ops[..|ops|] == ops;
    PresentIsLive(capacity, ops, k);
    forall n | t <= n <= |ops| ensures |Newer(capacity, ops[..n], t)| < capacity {
      PresentSince(capacity, ops, k, n);
      AgreePrefix(capacity, ops, n);
      FewAreNewer(capacity, ops[..n], k);
    }
  }

  lemma {:induction false} UseAgrees(capacity: nat, ops: seq<Op>, k: Key)
    ensures UsedAt(capacity, ops, k) == LastUse(capacity, ops, k)
    decreases |ops|, 0
  {
    if ops == [] {
    } else {
      var before := ops[..|ops| - 1];
      var s := Run(capacity, before);
      HistoryDecides(capacity, before, k);
      UseAgrees(capacity, before, k);
      RunInvariant(capacity, before);
      assert Has(s, k) ==> s[Find(s, k)].value == LastPut(before, k);
    }
  }

  /**
   The history alone decides which keys are in the cache: those used after they were
   last removed, and not pushed out since by as many newer keys as there is room for.
   */
  lemma {:induction false} HistoryDecides(capacity: nat, ops: seq<Op>, k: Key)
    ensures Has(Run(capacity, ops), k) <==> Stays(capacity, ops, k)
    decreases |ops|, 1
  {
    forall n, x | 0 <= n <= |ops| ensures UsedAt(capacity, ops[..n], x) == LastUse(capacity, ops[..n], x) {
      UseAgrees(capacity, ops[..n], x);
    }
    assert ops[..|ops|] == ops;
    if Has(Run(capacity, ops), k) {
      StaysIfPresent(capacity, ops, k);
    } else if Stays(capacity, ops, k) {
      StaysUntil(capacity, ops, k, LastUse(capacity, ops, k), |ops|);
    }
  }

  // ------------------------------------------------------------ the list and its index

  datatype Node = Node(id: nat, entry: Entry)

  /** The position of the node an iterator stands for. */
  function Position(list: seq<Node>, id: nat): (i: nat)
    ensures i <= |list| && (i < |list| ==> list[i].id == id)
    ensures forall j :: 0 <= j < i ==> list[j].id != id
  {
    if list == [] || list[0].id == id then 0
    else
      var i := 1 + Position(list[1..], id);
      assert forall j :: 1 <= j < i ==> list[j] == list[1..][j - 1];
      i
  }

  ghost predicate IdsDistinct(list: seq<Node>) {
    forall i, j :: 0 <= i < j < |list| ==> list[i].id != list[j].id
  }

  /** Every listed key is indexed under its own node. */
  ghost predicate Indexed(list: seq<Node>, index: map<Key, nat>) {
    forall i :: 0 <= i < |list| ==> list[i].entry.key in index && index[list[i].entry.key] == list[i].id
  }

  /** Every indexed key is listed, at the node its iterator stands for. */
  ghost predicate Listed(list: seq<Node>, index: map<Key, nat>) {
    forall k :: k in index ==>
      var i := Position(list, index[k]); i < |list| && list[i].entry.key == k
  }

  ghost predicate Coherent(list: seq<Node>, index: map<Key, nat>) {
    IdsDistinct(list) && Indexed(list, index) && Listed(list, index)
  }

  ghost predicate Shows(list: seq<Node>, s: seq<Entry>) {
    |s| == |list| && forall i :: 0 <= i < |list| ==> s[i] == list[i].entry
  }

  lemma AtPosition(list: seq<Node>, i: nat)
    requires IdsDistinct(list) && i < |list|
    ensures Position(list, list[i].id) == i
  {
    assert Position(list, list[i].id) <= i;
  }

  // The index finds the entry a search of the list would find.
  lemma IndexFinds(list: seq<Node>, index: map<Key, nat>, s: seq<Entry>, k: Key)
    requires Coherent(list, index) && Shows(list, s)
    ensures k in index <==> Has(s, k)
    ensures k in index ==> Position(list, index[k]) == Find(s, k)
  {
    assert Has(s, k) ==> list[Find(s, k)].entry.key == k;
    if k in index {
      assert s[Position(list, index[k])].key == k;
      AtPosition(list, Find(s, k));
    }
  }

  lemma WithoutKeepsIds(list: seq<Node>, p: nat)
    requires IdsDistinct(list) && p < |list|
    ensures IdsDistinct(Without(list, p))
  {
  }

  // A node that stays is found at its new position.
  lemma StillAtPosition(list: seq<Node>, p: nat, q: nat)
    requires IdsDistinct(list) && p < |list| && q < |list| && p != q
    ensures Position(Without(list, p), list[q].id) == if q < p then q else q - 1
  {
    WithoutKeepsIds(list, p);
    AtPosition(Without(list, p), if q < p then q else q - 1);
  }

  // Taking a node out of the list and its key out of the index keeps the two coherent.
  lemma EraseKeeps(list: seq<Node>, index: map<Key, nat>, k: Key)
    requires Coherent(list, index) && k in index
    ensures Coherent(Without(list, Position(list, index[k])), index - {k})
  {
    var p := Position(list, index[k]);
    var next := Without(list, p);
    WithoutKeepsIds(list, p);
    forall i | 0 <= i < |next| ensures next[i].entry.key in index - {k} && (index - {k})[next[i].entry.key] == next[i].id {
      var q := if i < p then i else i + 1;
      assert next[i] == list[q] && list[q].id != list[p].id;
    }
    forall x | x in index - {k} ensures var i := Position(next, index[x]); i < |next| && next[i].entry.key == x {
      var q := Position(list, index[x]);
      assert list[q].entry.key == x && list[p].entry.key == k;
      StillAtPosition(list, p, q);
    }
  }

  // A new node in front, under a key not indexed yet.
  lemma PushKeeps(list: seq<Node>, index: map<Key, nat>, node: Node)
    requires Coherent(list, index) && node.entry.key !in index
    requires forall i :: 0 <= i < |list| ==> list[i].id != node.id
    ensures Coherent([node] + list, index[node.entry.key := node.id])
  {
    var next, index' := [node] + list, index[node.entry.key := node.id];
    forall x | x in index' ensures var i := Position(next, index'[x]); i < |next| && next[i].entry.key == x {
      if x == node.entry.key {
        AtPosition(next, 0);
      } else {
        AtPosition(next, Position(list, index[x]) + 1);
      }
    }
  }

  lemma {:induction false} IndexSize(list: seq<Node>, index: map<Key, nat>)
    requires Coherent(list, index)
    ensures |index| == |list|
  {
    if list == [] {
      assert forall k :: k !in index;
    } else {
      var k := list[0].entry.key;
      AtPosition(list, 0);
      EraseKeeps(list, index, k);
      IndexSize(Without(list, 0), index - {k});
      assert index == (index - {k})[k := index[k]];
    }
  }

  // Moving a node to the front keeps its identity, so the index stays right.
  lemma SpliceKeeps(list: seq<Node>, index: map<Key, nat>, p: nat)
    requires Coherent(list, index) && p < |list|
    ensures Coherent([list[p]] + Without(list, p), index)
  {
    var node := list[p];
    var k := node.entry.key;
    AtPosition(list, p);
    EraseKeeps(list, index, k);
    PushKeeps(Without(list, p), index - {k}, node);
    assert (index - {k})[k := node.id] == index;
  }

  // ------------------------------------------------------------ the cache

  /** The list shows these entries, on nodes created so far. */
  ghost predicate ShowsBelow(list: seq<Node>, next: nat, s: seq<Entry>) {
    Shows(list, s) && forall i :: 0 <= i < |list| ==> list[i].id < next
  }

  /** The list and the index agree, and show these entries; `next` is the identity of the next node. */
  ghost predicate Represents(list: seq<Node>, index: map<Key, nat>, next: nat, s: seq<Entry>) {
    Coherent(list, index) && ShowsBelow(list, next, s)
  }

  lemma WithoutShows(list: seq<Node>, next: nat, s: seq<Entry>, p: nat)
    requires ShowsBelow(list, next, s) && p < |list|
    ensures ShowsBelow(Without(list, p), next, Without(s, p))
  {
  }

  lemma FrontShows(list: seq<Node>, next: nat, s: seq<Entry>, node: Node)
    requires ShowsBelow(list, next, s) && node.id < next
    ensures ShowsBelow([node] + list, next, [node.entry] + s)
  {
  }

  lemma RemoveRepresents(list: seq<Node>, index: map<Key, nat>, next: nat, s: seq<Entry>, k: Key)
    requires Represents(list, index, next, s) && k in index
    ensures Has(s, k)
    ensures Represents(Without(list, Position(list, index[k])), index - {k}, next, Dropped(s, k))
  {
    var p := Position(list, index[k]);
    IndexFinds(list, index, s, k);
    assert Dropped(s, k) == Without(s, p);
    WithoutShows(list, next, s, p);
    EraseKeeps(list, index, k);
  }

  lemma SpliceRepresents(list: seq<Node>, index: map<Key, nat>, next: nat, s: seq<Entry>, k: Key)
    requires Represents(list, index, next, s) && k in index
    ensures Has(s, k) && list[Position(list, index[k])].entry == s[Find(s, k)]
    ensures var p := Position(list, index[k]);
            Represents([list[p]] + Without(list, p), index, next, [s[Find(s, k)]] + Dropped(s, k))
  {
    var p := Position(list, index[k]);
    IndexFinds(list, index, s, k);
    assert Dropped(s, k) == Without(s, p);
    WithoutShows(list, next, s, p);
    FrontShows(Without(list, p), next, Without(s, p), list[p]);
    SpliceKeeps(list, index, p);
  }

  lemma PushRepresents(list: seq<Node>, index: map<Key, nat>, next: nat, s: seq<Entry>, e: Entry)
    requires Represents(list, index, next, s) && e.key !in index
    ensures Represents([Node(next, e)] + list, index[e.key := next], next + 1, [e] + s)
  {
    PushKeeps(list, index, Node(next, e));
    FrontShows(list, next + 1, s, Node(next, e));
  }

  lemma DroppedLast(s: seq<Entry>)
    requires KeysDistinct(s)
    ensures s != [] ==> Dropped(s, s[|s| - 1].key) == s[..|s| - 1]
  {
    if s != [] {
      FindDistinct(s, |s| - 1);
    }
  }

  class LruCache {
    var valueList: seq<Node>
    var index: map<Key, nat>
    var capacity: nat
    var nextId: nat             // the identity of the next list node
    ghost var history: seq<Op>  // the operations so far

    /** The list is what the operations so far leave in the cache, and the index agrees with it. */
    ghost predicate Valid()
      reads this
    {
      Represents(valueList, index, nextId, Run(capacity, history))
    }

    constructor (size: nat)
      ensures Valid() && capacity == size && history == []
    {
      valueList, index, capacity, nextId, history := [], map[], size, 0, [];
    }

    method Get(key: Key) returns (found: bool, value: Value)
      requires Valid()
      modifies this`valueList, this`index, this`history
      ensures Valid() && history == old(history) + [Op.Get(key)]
      ensures found <==> Has(Run(capacity, old(history)), key)
      ensures found <==> Stays(capacity, old(history), key)
      ensures found ==> value == LastPut(old(history), key)
    {
      HistoryDecides(capacity, history, key);
      ghost var s := Run(capacity, history);
      IndexFinds(valueList, index, s, key);
      RunInvariant(capacity, history);
      After(capacity, history, Op.Get(key), key);
      history := history + [Op.Get(key)];
      found, value := key in index, 0;
      if found {
        SpliceRepresents(valueList, index, nextId, s, key);
        var p := Position(valueList, index[key]);
        valueList := [valueList[p]] + Without(valueList, p);
        index := index[key := valueList[0].id];
        value := valueList[0].entry.value;
        assert index == old(index);
      }
    }

    method InternalRemove(key: Key, ghost s: seq<Entry>) returns (removed: bool)
      requires Represents(valueList, index, nextId, s)
      modifies this`valueList, this`index
      ensures Represents(valueList, index, nextId, Dropped(s, key))
      ensures (removed <==> Has(s, key)) && key !in index
    {
      IndexFinds(valueList, index, s, key);
      removed := key in index;
      if removed {
        RemoveRepresents(valueList, index, nextId, s, key);
        valueList := Without(valueList, Position(valueList, index[key]));
        index := index - {key};
      }
    }

    method Insert(key: Key, value: Value, ghost s: seq<Entry>)
      requires Represents(valueList, index, nextId, s) && key !in index
      modifies this`valueList, this`index, this`nextId
      ensures Represents(valueList, index, nextId, [Entry(key, value)] + s)
    {
      PushRepresents(valueList, index, nextId, s, Entry(key, value));
      valueList := [Node(nextId, Entry(key, value))] + valueList;
      index := index[key := nextId];
      nextId := nextId + 1;
    }

    method CheckOverflow(ghost s: seq<Entry>)
      requires Represents(valueList, index, nextId, s) && KeysDistinct(s)
      modifies this`valueList, this`index
      ensures Represents(valueList, index, nextId, Trimmed(s, capacity))
    {
      IndexSize(valueList, index);
      if |index| > capacity {
        DroppedLast(s);
        var victim := valueList[|valueList| - 1].entry.key;
        var _ := InternalRemove(victim, s);
      }
    }

    method Put(key: Key, value: Value)
      requires Valid()
      modifies this`valueList, this`index, this`nextId, this`history
      ensures Valid() && history == old(history) + [Op.Put(key, value)]
      ensures Has(Run(capacity, history), key) <==> capacity > 0
    {
      ghost var s := Run(capacity, history);
      RunInvariant(capacity, history);
      Membership(s, capacity, Op.Put(key, value), key);
      IndexFinds(valueList, index, s, key);
      After(capacity, history, Op.Put(key, value), key);
      history := history + [Op.Put(key, value)];
      if key in index {
        if valueList[Position(valueList, index[key])].entry.value == value {
          return;
        }
        var _ := InternalRemove(key, s);
      }
      Insert(key, value, Dropped(s, key));
      DroppedKeeps(s, key);
      CheckOverflow([Entry(key, value)] + Dropped(s, key));
    }

    method Remove(key: Key) returns (removed: bool)
      requires Valid()
      modifies this`valueList, this`index, this`history
      ensures Valid() && history == old(history) + [Op.Remove(key)]
      ensures removed <==> Has(Run(capacity, old(history)), key)
      ensures !Has(Run(capacity, history), key)
    {
      RunInvariant(capacity, history);
      Membership(Run(capacity, history), capacity, Op.Remove(key), key);
      After(capacity, history, Op.Remove(key), key);
      removed := InternalRemove(key, Run(capacity, history));
      history := history + [Op.Remove(key)];
    }

    method Clear()
      requires Valid()
      modifies this`valueList, this`index, this`history
      ensures Valid() && history == old(history) + [Op.Clear]
    {
      After(capacity, history, Op.Clear, 0);
      valueList, index, history := [], map[], history + [Op.Clear];
    }

    method HasKey(key: Key) returns (r: bool)
      requires Valid()
      ensures r <==> Has(Run(capacity, history), key)
      ensures r <==> Stays(capacity, history, key)
    {
      HistoryDecides(capacity, history, key);
      IndexFinds(valueList, index, Run(capacity, history), key);
      r := key in index;
    }

    method Size() returns (n: nat)
      requires Valid()
      ensures n == |Run(capacity, history)| <= capacity
    {
      RunInvariant(capacity, history);
      n := |valueList|;
    }
  }
}
