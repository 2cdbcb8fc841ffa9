/**
 The monitor of container/blocking_queue.h as a machine of thread steps: one
 mutex, two condition variables with Mesa semantics (a waiter may wake for no
 reason, by a timeout or by a notification, and must take the mutex again), and
 notifications sent after the mutex has been released.
 */
module BlockingQueue {
  import opened Options
  import opened Powers

  type Value = int

  datatype Op =
    | PushFront(v: Value, timed: bool)
    | PushBack(v: Value, timed: bool)
    | PopFront(timed: bool)
    | PopBack(timed: bool)
    | PopAll(timed: bool)
    | Clear
    | Size

  datatype Result = Done | Failed | Got(v: Value) | Batch(vs: seq<Value>) | Count(n: nat)

  predicate Producer(op: Op) { op.PushFront? || op.PushBack? }
  predicate Consumer(op: Op) { op.PopFront? || op.PopBack? || op.PopAll? }
  predicate Timed(op: Op) { (Producer(op) || Consumer(op)) && op.timed }

  /** What a thread still has to send once it has left the critical section. */
  datatype Notice = Nothing | SignalNotEmpty | SignalNotFull | BroadcastNotFull

  function Owed(op: Op, res: Result): Notice {
    if res.Failed? then Nothing
    else if Producer(op) then SignalNotEmpty
    else if op == PopAll(false) then BroadcastNotFull
    else if Consumer(op) then SignalNotFull
    else Nothing
  }

  /** Operations that broadcast before they release the mutex. */
  predicate BroadcastsInside(op: Op) { op == PopAll(true) || op.Clear? }

  /**
   Where a thread is inside an operation. `waited` records that it has already
   been on the condition variable once.
   */
  datatype Pc =
    | Idle
    | Entering(op: Op)
    | Parked(op: Op)
    | Woken(op: Op)
    | Testing(op: Op, waited: bool)
    | Holding(op: Op, waited: bool)
    | Broadcasting(op: Op, res: Result)
    | Leaving(op: Op, res: Result)
    | Owing(op: Op, res: Result)
    | Returning(op: Op, res: Result)

  /** The operation that took effect: by whom, and with what result. */
  datatype Event = Event(t: nat, op: Op, res: Result)

  /**
   `log` and `since` only record history: the effects in the order they happened,
   and how many there were when each thread's current operation was called.
   */
  datatype State = State(max: nat, queue: seq<Value>, owner: int, threads: map<nat, Pc>,
                         log: seq<Event>, since: map<nat, nat>)

  const NOBODY: int := -1

  /** The wait condition of an operation holds. */
  predicate Blocked(op: Op, queue: seq<Value>, max: nat) {
    (Producer(op) && |queue| >= max) || (Consumer(op) && queue == [])
  }

  /** The critical section proper. */
  function Effect(op: Op, queue: seq<Value>): (r: (seq<Value>, Result))
    requires Consumer(op) ==> queue != []
  {
    match op
    case PushFront(v, _) => ([v] + queue, Done)
    case PushBack(v, _) => (queue + [v], Done)
    case PopFront(_) => (queue[1..], Got(queue[0]))
    case PopBack(_) => (queue[..|queue| - 1], Got(queue[|queue| - 1]))
    case PopAll(_) => ([], Batch(queue))
    case Clear => ([], Done)
    case Size => (queue, Count(|queue|))
  }

  datatype Step =
    | Call(t: nat, op: Op)
    | Acquire(t: nat)
    | Test(t: nat)
    | Mutate(t: nat)
    | BroadcastLocked(t: nat)
    | Release(t: nat)
    | Notify(t: nat, w: int)
    | Wake(t: nat)
    | Return(t: nat)

  predicate ParkedConsumer(pc: Pc) { pc.Parked? && Consumer(pc.op) }
  predicate ParkedProducer(pc: Pc) { pc.Parked? && Producer(pc.op) }

  /** Whether w may be the thread a signal wakes: a waiter if there is one, nobody otherwise. */
  ghost predicate Wakes(s: State, n: Notice, w: int) {
    match n
    case SignalNotEmpty =>
      if exists x :: x in s.threads && ParkedConsumer(s.threads[x])
      then w >= 0 && w in s.threads && ParkedConsumer(s.threads[w]) else w == NOBODY
    case SignalNotFull =>
      if exists x :: x in s.threads && ParkedProducer(s.threads[x])
      then w >= 0 && w in s.threads && ParkedProducer(s.threads[w]) else w == NOBODY
    case _ => w == NOBODY
  }

  ghost predicate Enabled(s: State, step: Step) {
    step.t in s.threads &&
    var pc := s.threads[step.t];
    match step
    case Call(t, op) => pc.Idle?
    case Acquire(t) => (pc.Entering? || pc.Woken?) && s.owner == NOBODY
    case Test(t) => pc.Testing?
    case Mutate(t) => pc.Holding? && !Blocked(pc.op, s.queue, s.max)
    case BroadcastLocked(t) => pc.Broadcasting?
    case Release(t) => pc.Leaving?
    case Notify(t, w) => pc.Owing? && Wakes(s, Owed(pc.op, pc.res), w)
    case Wake(t) => pc.Parked?
    case Return(t) => pc.Returning?
  }

  function WakeProducers(threads: map<nat, Pc>): map<nat, Pc> {
    map t | t in threads :: if ParkedProducer(threads[t]) then Woken(threads[t].op) else threads[t]
  }

  function AfterLeaving(op: Op, res: Result): Pc {
    if Owed(op, res).Nothing? then Returning(op, res) else Owing(op, res)
  }

  ghost function Apply(s: State, step: Step): State
    requires Enabled(s, step)
  {
    var t := step.t;
    var pc := s.threads[t];
    match step
    case Call(_, op) => s.(threads := s.threads[t := Entering(op)], since := s.since[t := |s.log|])
    case Acquire(_) => s.(owner := t, threads := s.threads[t := Testing(pc.op, pc.Woken?)])
    case Test(_) =>
      if !Blocked(pc.op, s.queue, s.max) then
        s.(threads := s.threads[t := Holding(pc.op, pc.waited)])
      else if pc.waited && Timed(pc.op) then
        s.(threads := s.threads[t := Leaving(pc.op, Failed)], log := s.log + [Event(t, pc.op, Failed)])
      else
        s.(owner := NOBODY, threads := s.threads[t := Parked(pc.op)])
    case Mutate(_) =>
      var (queue, res) := Effect(pc.op, s.queue);
      s.(queue := queue, log := s.log + [Event(t, pc.op, res)],
         threads := s.threads[t := if BroadcastsInside(pc.op) then Broadcasting(pc.op, res) else Leaving(pc.op, res)])
    case BroadcastLocked(_) => s.(threads := WakeProducers(s.threads)[t := Leaving(pc.op, pc.res)])
    case Release(_) => s.(owner := NOBODY, threads := s.threads[t := AfterLeaving(pc.op, pc.res)])
    case Notify(_, w) =>
      var woken :=
        if Owed(pc.op, pc.res).BroadcastNotFull? then WakeProducers(s.threads)
        else if w in s.threads && s.threads[w].Parked? then s.threads[w := Woken(s.threads[w].op)]
        else s.threads;
      s.(threads := woken[t := Returning(pc.op, pc.res)])
    case Wake(_) => s.(threads := s.threads[t := Woken(pc.op)])
    case Return(_) => s.(threads := s.threads[t := Idle])
  }

  ghost predicate Initial(s: State) {
    && s.max > 0 && s.queue == [] && s.owner == NOBODY && s.log == []
    && s.since.Keys == s.threads.Keys
    && forall t :: t in s.threads ==> s.threads[t] == Idle && s.since[t] == 0
  }

  // ------------------------------------------------------------ counting threads

  ghost function Matching(threads: map<nat, Pc>, p: Pc -> bool): set<nat> {
    set t | t in threads && p(threads[t])
  }

  ghost function Tally(threads: map<nat, Pc>, p: Pc -> bool): nat {
    |Matching(threads, p)|
  }

  lemma TallyUpdate(threads: map<nat, Pc>, p: Pc -> bool, t: nat, pc: Pc)
    requires t in threads
    ensures Tally(threads[t := pc], p)
         == Tally(threads, p) - (if p(threads[t]) then 1 else 0) + (if p(pc) then 1 else 0)
  {
    SizeAfterUpdate(Matching(threads, p), Matching(threads[t := pc], p), t);
  }

  lemma SizeAfterUpdate(a: set<nat>, b: set<nat>, t: nat)
    requires a - {t} == b - {t}
    ensures |b| == |a| - (if t in a then 1 else 0) + (if t in b then 1 else 0)
  {
    assert a == if t in a then (a - {t}) + {t} else a - {t};
    assert b == if t in b then (b - {t}) + {t} else b - {t};
  }

  lemma TallySame(threads: map<nat, Pc>, threads': map<nat, Pc>, p: Pc -> bool)
    requires threads.Keys == threads'.Keys
    requires forall t :: t in threads ==> p(threads[t]) == p(threads'[t])
    ensures Tally(threads, p) == Tally(threads', p)
  {
    assert Matching(threads, p) == Matching(threads', p);
  }

  lemma TallyZero(threads: map<nat, Pc>, p: Pc -> bool)
    ensures Tally(threads, p) == 0 <==> forall t :: t in threads ==> !p(threads[t])
  {
    if Tally(threads, p) == 0 {
      assert Matching(threads, p) == {};
      forall t | t in threads ensures !p(threads[t]) {
        assert t !in Matching(threads, p);
      }
    } else {
      assert Matching(threads, p) != {};
      var t :| t in Matching(threads, p);
    }
  }

  // ------------------------------------------------------------ invariants

  /** The thread is inside the critical section. */
  predicate Holds(pc: Pc) {
    pc.Testing? || pc.Holding? || pc.Broadcasting? || pc.Leaving?
  }

  /** The thread was on a condition variable and has been woken, and has not got any further than the test. */
  predicate Roused(pc: Pc) {
    pc.Woken? || ((pc.Testing? || pc.Holding?) && pc.waited)
  }

  /** An element is spoken for: a signal for it is still to be sent, or a consumer has been woken to take it. */
  predicate ElementClaim(pc: Pc) {
    || ((pc.Leaving? || pc.Owing?) && Owed(pc.op, pc.res).SignalNotEmpty?)
    || (Roused(pc) && Consumer(pc.op))
  }

  /** A free slot is spoken for, likewise. */
  predicate SlotClaim(pc: Pc) {
    || ((pc.Leaving? || pc.Owing?) && Owed(pc.op, pc.res).SignalNotFull?)
    || (Roused(pc) && Producer(pc.op))
  }

  predicate BroadcastOwed(pc: Pc) {
    pc.Broadcasting? || ((pc.Leaving? || pc.Owing?) && Owed(pc.op, pc.res).BroadcastNotFull?)
  }

  /** A notification is owed, or a woken thread is on its way. */
  predicate Spoken(pc: Pc) { ElementClaim(pc) || SlotClaim(pc) || BroadcastOwed(pc) }

  ghost predicate MutualExclusion(s: State) {
    && (s.owner == NOBODY || (s.owner >= 0 && s.owner in s.threads && Holds(s.threads[s.owner])))
    && forall t :: t in s.threads && Holds(s.threads[t]) ==> s.owner == t
  }

  ghost predicate Bounded(s: State) {
    && 0 < s.max && |s.queue| <= s.max
    && forall t :: t in s.threads && s.threads[t].Holding? ==> !Blocked(s.threads[t].op, s.queue, s.max)
  }

  /** Only operations with a wait condition are ever on a condition variable. */
  ghost predicate WaitersWait(s: State) {
    forall t :: t in s.threads ==>
      var pc := s.threads[t];
      && (pc.Parked? || pc.Woken? ==> Producer(pc.op) || Consumer(pc.op))
      && (pc.Broadcasting? ==> BroadcastsInside(pc.op) && !pc.res.Failed?)
      && (pc.Owing? ==> !Owed(pc.op, pc.res).Nothing?)
  }

  /** No consumer sleeps on an element nobody is about to announce or take. */
  ghost predicate NoLostElement(s: State) {
    Tally(s.threads, ParkedConsumer) > 0 ==> |s.queue| <= Tally(s.threads, ElementClaim)
  }

  /** No producer sleeps on a free slot nobody is about to announce or take, unless a broadcast is still owed. */
  ghost predicate NoLostSlot(s: State) {
    Tally(s.threads, ParkedProducer) > 0 && Tally(s.threads, BroadcastOwed) == 0 ==>
      s.max - |s.queue| <= Tally(s.threads, SlotClaim)
  }

  ghost predicate Inv(s: State) {
    MutualExclusion(s) && Bounded(s) && WaitersWait(s) && NoLostElement(s) && NoLostSlot(s)
  }

  lemma InitialInv(s: State)
    requires Initial(s)
    ensures Inv(s)
  {
    TallyZero(s.threads, ParkedConsumer);
    TallyZero(s.threads, ParkedProducer);
  }

  // ------------------------------------------------------------ steps keep the invariants

  lemma StepKeepsExclusion(s: State, step: Step)
    requires Inv(s) && Enabled(s, step)
    ensures MutualExclusion(Apply(s, step))
  {
  }

  lemma StepKeepsBounds(s: State, step: Step)
    requires Inv(s) && Enabled(s, step)
    ensures Bounded(Apply(s, step))
  {
  }

  lemma StepKeepsWaiters(s: State, step: Step)
    requires Inv(s) && Enabled(s, step)
    ensures WaitersWait(Apply(s, step))
  {
  }

  // One thread moves on: enough for the elements that the claims keep up with the queue.
  lemma ElementsAfter(s: State, s': State, t: nat, pc: Pc)
    requires NoLostElement(s) && t in s.threads && s'.threads == s.threads[t := pc]
    requires || s'.queue == []
             || (&& |s'.queue| - |s.queue| <= One(ElementClaim(pc)) - One(ElementClaim(s.threads[t]))
                 && (ParkedConsumer(pc) ==> ParkedConsumer(s.threads[t])))
    ensures NoLostElement(s')
  {
    TallyUpdate(s.threads, ParkedConsumer, t, pc);
    TallyUpdate(s.threads, ElementClaim, t, pc);
  }

  lemma SlotsAfter(s: State, s': State, t: nat, pc: Pc)
    requires NoLostSlot(s) && t in s.threads && s'.threads == s.threads[t := pc] && s'.max == s.max
    requires || |s'.queue| == s'.max
             || BroadcastOwed(pc)
             || (&& |s.queue| - |s'.queue| <= One(SlotClaim(pc)) - One(SlotClaim(s.threads[t]))
                 && (ParkedProducer(pc) ==> ParkedProducer(s.threads[t]))
                 && !BroadcastOwed(s.threads[t]))
    ensures NoLostSlot(s')
  {
    TallyUpdate(s.threads, ParkedProducer, t, pc);
    TallyUpdate(s.threads, SlotClaim, t, pc);
    TallyUpdate(s.threads, BroadcastOwed, t, pc);
    if BroadcastOwed(pc) {
      TallyZero(s'.threads, BroadcastOwed);
      assert s'.threads[t] == pc;
    }
  }

  // A broadcast leaves no producer parked and touches no consumer.
  lemma BroadcastKeeps(s: State, s': State, t: nat, pc: Pc)
    requires NoLostElement(s) && t in s.threads && s'.threads == WakeProducers(s.threads)[t := pc]
    requires s'.queue == s.queue && !ParkedProducer(pc)
    requires ParkedConsumer(pc) == ParkedConsumer(s.threads[t]) && ElementClaim(pc) == ElementClaim(s.threads[t])
    ensures NoLostElement(s') && NoLostSlot(s')
  {
    TallySame(s.threads, s'.threads, ParkedConsumer);
    TallySame(s.threads, s'.threads, ElementClaim);
    TallyZero(s'.threads, ParkedProducer);
  }

  // A signal moves its claim to the thread it wakes; with nobody parked there is nothing to lose.
  lemma SignalKeeps(s: State, t: nat, w: int)
    requires Inv(s) && Enabled(s, Notify(t, w)) && !Owed(s.threads[t].op, s.threads[t].res).BroadcastNotFull?
    ensures var s' := Apply(s, Notify(t, w));
            NoLostElement(s') && NoLostSlot(s')
  {
    var s' := Apply(s, Notify(t, w));
    var pc := s.threads[t];
    var after := Returning(pc.op, pc.res);
    if w == NOBODY {
      SignalToNobody(s, s', t);
    } else {
      var mid := s.(threads := s.threads[w := Woken(s.threads[w].op)]);
      TallyUpdate(s.threads, ParkedConsumer, w, Woken(s.threads[w].op));
      TallyUpdate(s.threads, ElementClaim, w, Woken(s.threads[w].op));
      TallyUpdate(s.threads, ParkedProducer, w, Woken(s.threads[w].op));
      TallyUpdate(s.threads, SlotClaim, w, Woken(s.threads[w].op));
      TallyUpdate(s.threads, BroadcastOwed, w, Woken(s.threads[w].op));
      TallyUpdate(mid.threads, ParkedConsumer, t, after);
      TallyUpdate(mid.threads, ElementClaim, t, after);
      TallyUpdate(mid.threads, ParkedProducer, t, after);
      TallyUpdate(mid.threads, SlotClaim, t, after);
      TallyUpdate(mid.threads, BroadcastOwed, t, after);
    }
  }

  lemma SignalToNobody(s: State, s': State, t: nat)
    requires Inv(s) && Enabled(s, Notify(t, NOBODY)) && s' == Apply(s, Notify(t, NOBODY))
    requires !Owed(s.threads[t].op, s.threads[t].res).BroadcastNotFull?
    ensures NoLostElement(s') && NoLostSlot(s')
  {
    var pc := s.threads[t];
    var after := Returning(pc.op, pc.res);
    if Owed(pc.op, pc.res).SignalNotEmpty? {
      TallyZero(s'.threads, ParkedConsumer);
      SlotsAfter(s, s', t, after);
    } else {
      TallyZero(s'.threads, ParkedProducer);
      ElementsAfter(s, s', t, after);
    }
  }

  predicate OnlyMovesItsThread(step: Step) { !step.BroadcastLocked? && !step.Notify? }

  lemma LocalStepElements(s: State, step: Step)
    requires Inv(s) && Enabled(s, step) && OnlyMovesItsThread(step)
    ensures NoLostElement(Apply(s, step))
  {
    ElementsAfter(s, Apply(s, step), step.t, Apply(s, step).threads[step.t]);
  }

  lemma LocalStepSlots(s: State, step: Step)
    requires Inv(s) && Enabled(s, step) && OnlyMovesItsThread(step)
    ensures NoLostSlot(Apply(s, step))
  {
    SlotsAfter(s, Apply(s, step), step.t, Apply(s, step).threads[step.t]);
  }

  lemma StepKeepsNoLostWakeup(s: State, step: Step)
    requires Inv(s) && Enabled(s, step)
    ensures NoLostElement(Apply(s, step)) && NoLostSlot(Apply(s, step))
  {
    var s', t := Apply(s, step), step.t;
    var pc := s.threads[t];
    match step
    case BroadcastLocked(_) => BroadcastKeeps(s, s', t, Leaving(pc.op, pc.res));
    case Notify(_, w) =>
      if Owed(pc.op, pc.res).BroadcastNotFull? {
        BroadcastKeeps(s, s', t, Returning(pc.op, pc.res));
      } else {
        SignalKeeps(s, t, w);
      }
    case _ =>
      LocalStepElements(s, step);
      LocalStepSlots(s, step);
  }

  lemma StepKeepsInv(s: State, step: Step)
    requires Inv(s) && Enabled(s, step)
    ensures Inv(Apply(s, step))
  {
    StepKeepsExclusion(s, step);
    StepKeepsBounds(s, step);
    StepKeepsWaiters(s, step);
    StepKeepsNoLostWakeup(s, step);
  }

  // ------------------------------------------------------------ progress

  predicate AtRest(pc: Pc) { pc.Idle? || pc.Parked? }

  // When nothing but a new call or a spurious wakeup can happen, every sleeper sleeps for a reason.
  lemma SleepersAreJustified(s: State, t: nat)
    requires Inv(s) && t in s.threads && s.threads[t].Parked?
    requires forall x :: x in s.threads ==> AtRest(s.threads[x])
    ensures Blocked(s.threads[t].op, s.queue, s.max)
  {
    TallyZero(s.threads, ParkedConsumer);
    TallyZero(s.threads, ParkedProducer);
    TallyZero(s.threads, ElementClaim);
    TallyZero(s.threads, SlotClaim);
    TallyZero(s.threads, BroadcastOwed);
  }

  // A producer and a consumer never both sleep with nothing owed and nobody woken.
  lemma NeverBothAsleep(s: State, c: nat, p: nat)
    requires Inv(s) && c in s.threads && p in s.threads
    requires ParkedConsumer(s.threads[c]) && ParkedProducer(s.threads[p])
    ensures exists x :: x in s.threads && Spoken(s.threads[x])
  {
    TallyZero(s.threads, ParkedConsumer);
    TallyZero(s.threads, ParkedProducer);
    TallyZero(s.threads, ElementClaim);
    TallyZero(s.threads, SlotClaim);
    TallyZero(s.threads, BroadcastOwed);
  }

  // Whoever is not at rest can make the machine move without help from a new call or a spurious wakeup.
  lemma NoDeadlock(s: State, t: nat)
    requires Inv(s) && t in s.threads && !AtRest(s.threads[t])
    ensures exists step :: Enabled(s, step) && !step.Call? && !step.Wake?
  {
    var x: nat := if s.owner == NOBODY then t else s.owner;
    match s.threads[x]
    case Entering(_) => assert Enabled(s, Acquire(x));
    case Woken(_) => assert Enabled(s, Acquire(x));
    case Testing(_, _) => assert Enabled(s, Test(x));
    case Holding(_, _) => assert Enabled(s, Mutate(x));
    case Broadcasting(_, _) => assert Enabled(s, BroadcastLocked(x));
    case Leaving(_, _) => assert Enabled(s, Release(x));
    case Returning(_, _) => assert Enabled(s, Return(x));
    case Owing(op, res) =>
      var w := SomeoneToWake(s, Owed(op, res));
      assert Enabled(s, Notify(x, w));
  }

  lemma SomeoneToWake(s: State, n: Notice) returns (w: int)
    ensures Wakes(s, n, w)
  {
    w := NOBODY;
    if n.SignalNotEmpty? && exists x :: x in s.threads && ParkedConsumer(s.threads[x]) {
      w :| w in s.threads && ParkedConsumer(s.threads[w]);
    } else if n.SignalNotFull? && exists x :: x in s.threads && ParkedProducer(s.threads[x]) {
      w :| w in s.threads && ParkedProducer(s.threads[w]);
    }
  }

  // ------------------------------------------------------------ the sequential deque

  /** A bounded deque used by one thread: the state after an operation, if it may have that result. */
  function SpecStep(q: seq<Value>, max: nat, op: Op, res: Result): Option<seq<Value>> {
    match (op, res)
    case (PushFront(v, _), Done) => if |q| < max then Some([v] + q) else None
    case (PushBack(v, _), Done) => if |q| < max then Some(q + [v]) else None
    case (PushFront(_, true), Failed) => if |q| >= max then Some(q) else None
    case (PushBack(_, true), Failed) => if |q| >= max then Some(q) else None
    case (PopFront(_), Got(v)) => if q != [] && v == q[0] then Some(q[1..]) else None
    case (PopBack(_), Got(v)) => if q != [] && v == q[|q| - 1] then Some(q[..|q| - 1]) else None
    case (PopAll(_), Batch(vs)) => if q != [] && vs == q then Some([]) else None
    case (PopFront(true), Failed) => if q == [] then Some(q) else None
    case (PopBack(true), Failed) => if q == [] then Some(q) else None
    case (PopAll(true), Failed) => if q == [] then Some(q) else None
    case (Clear, Done) => Some([])
    case (Size, Count(n)) => if n == |q| then Some(q) else None
    case _ => None
  }

  /** The deque after a sequence of operations, if all their results are possible. */
  function Replay(log: seq<Event>, max: nat): Option<seq<Value>> {
    if log == [] then Some([])
    else
      var e := log[|log| - 1];
      match Replay(log[..|log| - 1], max)
      case None => None
      case Some(q) => SpecStep(q, max, e.op, e.res)
  }

  function EventsOf(log: seq<Event>, t: nat): seq<Event> {
    if log == [] then []
    else
      var e := log[|log| - 1];
      EventsOf(log[..|log| - 1], t) + if e.t == t then [e] else []
  }

  predicate Took(pc: Pc) { pc.Broadcasting? || pc.Leaving? || pc.Owing? || pc.Returning? }

  /** Since its call, thread t's operation has taken effect once, with the result it holds, or not yet. */
  ghost predicate EffectOnce(s: State, t: nat) {
    t in s.threads && t in s.since && s.since[t] <= |s.log| &&
    var pc, own := s.threads[t], EventsOf(s.log[s.since[t]..], t);
    && (Took(pc) ==> own == [Event(t, pc.op, pc.res)])
    && (!Took(pc) && !pc.Idle? ==> own == [])
  }

  ghost predicate Linearized(s: State) {
    && Replay(s.log, s.max) == Some(s.queue)
    && forall t :: t in s.threads ==> EffectOnce(s, t)
  }

  lemma ReplayAppend(log: seq<Event>, max: nat, e: Event)
    requires Replay(log, max).Some?
    ensures Replay(log + [e], max) == SpecStep(Replay(log, max).value, max, e.op, e.res)
  {
    assert (log + [e])[..|log|] == log;
  }

  lemma EventsAppend(log: seq<Event>, e: Event, t: nat, from: nat)
    requires from <= |log|
    ensures EventsOf((log + [e])[from..], t) == EventsOf(log[from..], t) + if e.t == t then [e] else []
  {
    var tail := (log + [e])[from..];
    assert tail == log[from..] + [e];
    assert tail[..|tail| - 1] == log[from..];
  }

  // The critical section does what the sequential deque does.
  lemma EffectIsLegal(q: seq<Value>, max: nat, op: Op)
    requires !Blocked(op, q, max)
    ensures SpecStep(q, max, op, Effect(op, q).1) == Some(Effect(op, q).0)
  {
  }

  lemma OwnEventOnce(s: State, step: Step)
    requires Enabled(s, step) && EffectOnce(s, step.t) && (step.Test? || step.Mutate?)
    ensures EffectOnce(Apply(s, step), step.t)
  {
    var pc, t := s.threads[step.t], step.t;
    if step.Test? {
      EventsAppend(s.log, Event(t, pc.op, Failed), t, s.since[t]);
    } else {
      EventsAppend(s.log, Event(t, pc.op, Effect(pc.op, s.queue).1), t, s.since[t]);
    }
  }

  lemma OwnEffectOnce(s: State, step: Step)
    requires Enabled(s, step) && EffectOnce(s, step.t)
    ensures EffectOnce(Apply(s, step), step.t)
  {
    if step.Test? || step.Mutate? {
      OwnEventOnce(s, step);
    } else if step.Call? {
      assert s.log[|s.log|..] == [];
    }
  }

  lemma OtherEffectOnce(s: State, step: Step, t: nat)
    requires Enabled(s, step) && EffectOnce(s, t) && t != step.t
    ensures EffectOnce(Apply(s, step), t)
  {
    var s' := Apply(s, step);
    assert s'.threads[t] == s.threads[t] || (s.threads[t].Parked? && s'.threads[t].Woken?);
    if |s'.log| > |s.log| {
      EventsAppend(s.log, s'.log[|s.log|], t, s.since[t]);
    }
  }

  // So does giving up after a timeout.
  lemma FailureIsLegal(q: seq<Value>, max: nat, op: Op)
    requires Blocked(op, q, max) && Timed(op)
    ensures SpecStep(q, max, op, Failed) == Some(q)
  {
  }

  lemma TestReplays(s: State, t: nat)
    requires Replay(s.log, s.max) == Some(s.queue) && Enabled(s, Test(t))
    ensures Replay(Apply(s, Test(t)).log, s.max) == Some(Apply(s, Test(t)).queue)
  {
    var pc := s.threads[t];
    if Blocked(pc.op, s.queue, s.max) && pc.waited && Timed(pc.op) {
      FailureIsLegal(s.queue, s.max, pc.op);
      ReplayAppend(s.log, s.max, Event(t, pc.op, Failed));
    }
  }

  lemma MutateReplays(s: State, t: nat)
    requires Replay(s.log, s.max) == Some(s.queue) && Enabled(s, Mutate(t))
    ensures Replay(Apply(s, Mutate(t)).log, s.max) == Some(Apply(s, Mutate(t)).queue)
  {
    var pc := s.threads[t];
    EffectIsLegal(s.queue, s.max, pc.op);
    ReplayAppend(s.log, s.max, Event(t, pc.op, Effect(pc.op, s.queue).1));
  }

  lemma ReplayKept(s: State, step: Step)
    requires Replay(s.log, s.max) == Some(s.queue) && Enabled(s, step)
    ensures Replay(Apply(s, step).log, s.max) == Some(Apply(s, step).queue)
  {
    if step.Mutate? {
      MutateReplays(s, step.t);
    } else if step.Test? {
      TestReplays(s, step.t);
    }
  }

  lemma StepKeepsLinearized(s: State, step: Step)
    requires Inv(s) && Linearized(s) && Enabled(s, step)
    ensures Linearized(Apply(s, step))
  {
    var s' := Apply(s, step);
    assert s'.max == s.max && s'.threads.Keys == s.threads.Keys;
    forall t | t in s'.threads ensures EffectOnce(s', t) {
      assert EffectOnce(s, t);
      if t == step.t {
        OwnEffectOnce(s, step);
      } else {
        OtherEffectOnce(s, step, t);
      }
    }
    ReplayKept(s, step);
  }

  // ------------------------------------------------------------ whole runs

  ghost predicate Moves(s: State, s': State) {
    exists step :: Enabled(s, step) && s' == Apply(s, step)
  }

  ghost predicate MoveAt(tr: seq<State>, i: nat)
    requires i + 1 < |tr|
  {
    Moves(tr[i], tr[i + 1])
  }

  ghost predicate Run(tr: seq<State>) {
    && tr != [] && Initial(tr[0])
    && forall i: nat :: i + 1 < |tr| ==> MoveAt(tr, i)
  }

  lemma {:induction false} RunInvariant(tr: seq<State>, i: nat)
    requires Run(tr) && i < |tr|
    ensures Inv(tr[i]) && Linearized(tr[i]) && tr[i].max == tr[0].max
  {
    if i == 0 {
      InitialInv(tr[0]);
    } else {
      RunInvariant(tr, i - 1);
      assert MoveAt(tr, i - 1);
      var step :| Enabled(tr[i - 1], step) && tr[i] == Apply(tr[i - 1], step);
      StepKeepsInv(tr[i - 1], step);
      StepKeepsLinearized(tr[i - 1], step);
    }
  }

  // In every state of every run: bounded, mutually exclusive, and no wakeup is lost.
  lemma NoLostWakeup(tr: seq<State>, i: nat)
    requires Run(tr) && i < |tr|
    ensures var s := tr[i];
            && |s.queue| <= s.max
            && (Tally(s.threads, ParkedConsumer) > 0 ==> |s.queue| <= Tally(s.threads, ElementClaim))
            && (Tally(s.threads, ParkedProducer) > 0 && Tally(s.threads, BroadcastOwed) == 0 ==>
                  s.max - |s.queue| <= Tally(s.threads, SlotClaim))
            && (forall c, p :: c in s.threads && p in s.threads
                  && ParkedConsumer(s.threads[c]) && ParkedProducer(s.threads[p])
                  ==> exists x :: x in s.threads && Spoken(s.threads[x]))
  {
    RunInvariant(tr, i);
    var s := tr[i];
    forall c, p | c in s.threads && p in s.threads && ParkedConsumer(s.threads[c]) && ParkedProducer(s.threads[p])
      ensures exists x :: x in s.threads && Spoken(s.threads[x])
    {
      NeverBothAsleep(s, c, p);
    }
  }

  lemma StepAt(tr: seq<State>, i: nat) returns (step: Step)
    requires Run(tr) && i + 1 < |tr|
    ensures Enabled(tr[i], step) && tr[i + 1] == Apply(tr[i], step)
  {
    assert MoveAt(tr, i);
    step :| Enabled(tr[i], step) && tr[i + 1] == Apply(tr[i], step);
  }

  // The log only grows along a run.
  lemma {:induction false} LogGrows(tr: seq<State>, a: nat, b: nat)
    requires Run(tr) && a <= b < |tr|
    ensures tr[a].log <= tr[b].log && tr[a].threads.Keys == tr[b].threads.Keys
    decreases b
  {
    if a == b {
    } else {
      LogGrows(tr, a, b - 1);
      var step := StepAt(tr, b - 1);
    }
  }

  /** Move a is thread t's call of op, and the call lasts until state b. */
  ghost predicate OneOperation(tr: seq<State>, a: nat, b: nat, t: nat, op: Op) {
    && a < b < |tr| && Enabled(tr[a], Call(t, op)) && tr[a + 1] == Apply(tr[a], Call(t, op))
    && forall i :: a < i <= b ==> t in tr[i].threads && !tr[i].threads[t].Idle?
  }

  lemma OperationKeptOnce(s: State, step: Step, t: nat)
    requires Enabled(s, step) && t in s.threads && !s.threads[t].Idle?
    ensures var s' := Apply(s, step);
            && t in s'.threads && (!s'.threads[t].Idle? ==> s'.threads[t].op == s.threads[t].op)
            && (t in s.since ==> t in s'.since && s'.since[t] == s.since[t])
  {
  }

  // Until it returns, a thread works on the operation it was called for, and what is recorded as
  // the start of the call is the length of the log when the call was made.
  lemma {:induction false} CallIsKept(tr: seq<State>, a: nat, b: nat, t: nat, op: Op)
    requires Run(tr) && OneOperation(tr, a, b, t, op)
    ensures tr[b].threads[t].op == op && t in tr[b].since && tr[b].since[t] == |tr[a].log|
    decreases b
  {
    if b == a + 1 {
    } else {
      CallIsKept(tr, a, b - 1, t, op);
      var step := StepAt(tr, b - 1);
      OperationKeptOnce(tr[b - 1], step, t);
    }
  }

  // Every operation takes effect exactly once between its call and its return, with the result it
  // returns, and the effects in that order are a possible history of a sequential bounded deque.
  lemma OperationsLinearize(tr: seq<State>, a: nat, b: nat, t: nat, op: Op)
    requires Run(tr) && OneOperation(tr, a, b, t, op) && tr[b].threads[t].Returning?
    ensures Replay(tr[b].log, tr[b].max) == Some(tr[b].queue)
    ensures tr[a].log <= tr[b].log
    ensures EventsOf(tr[b].log[|tr[a].log|..], t) == [Event(t, op, tr[b].threads[t].res)]
  {
    RunInvariant(tr, b);
    LogGrows(tr, a, b);
    CallIsKept(tr, a, b, t, op);
    assert EffectOnce(tr[b], t);
  }

  /** The thread is waiting, has waited, or has given up. */
  predicate HasWaited(pc: Pc) {
    pc.Parked? || Roused(pc) || (Took(pc) && pc.res.Failed?)
  }

  lemma WaitedBefore(s: State, step: Step, t: nat)
    requires Enabled(s, step) && t in s.threads && HasWaited(Apply(s, step).threads[t])
    ensures HasWaited(s.threads[t]) || Apply(s, step).threads[t].Parked?
  {
  }

  // An operation that has given up, or is about to test again, has been on its condition variable since it was called.
  lemma {:induction false} FailsOnlyAfterWaiting(tr: seq<State>, a: nat, b: nat, t: nat, op: Op)
    requires Run(tr) && OneOperation(tr, a, b, t, op) && HasWaited(tr[b].threads[t])
    ensures exists i :: a < i <= b && tr[i].threads[t].Parked?
    decreases b
  {
    if tr[b].threads[t].Parked? {
    } else {
      var step := StepAt(tr, b - 1);
      WaitedBefore(tr[b - 1], step, t);
      assert b - 1 > a;
      FailsOnlyAfterWaiting(tr, a, b - 1, t, op);
    }
  }

  lemma PastWaitingOnce(s: State, step: Step, t: nat)
    requires Enabled(s, step) && t in s.threads && (Roused(s.threads[t]) || Took(s.threads[t])) && Timed(s.threads[t].op)
    ensures var pc := Apply(s, step).threads[t]; Roused(pc) || Took(pc) || pc.Idle?
  {
  }

  // A timed operation waits at most once: when it is woken or its time is up, it succeeds or gives up.
  lemma {:induction false} TimedWaitsOnce(tr: seq<State>, a: nat, i: nat, b: nat, t: nat, op: Op)
    requires Run(tr) && OneOperation(tr, a, b, t, op) && Timed(op) && a < i <= b
    requires Roused(tr[i].threads[t]) || Took(tr[i].threads[t])
    ensures Roused(tr[b].threads[t]) || Took(tr[b].threads[t])
    decreases b
  {
    if i == b {
    } else {
      TimedWaitsOnce(tr, a, i, b - 1, t, op);
      CallIsKept(tr, a, b - 1, t, op);
      var step := StepAt(tr, b - 1);
      PastWaitingOnce(tr[b - 1], step, t);
    }
  }

  lemma {:induction false} EventIsLogged(log: seq<Event>, from: nat, t: nat, e: Event) returns (k: nat)
    requires from <= |log| && e in EventsOf(log[from..], t)
    ensures from <= k < |log| && log[k] == e
    decreases |log|
  {
    var tail := log[from..];
    if log[|log| - 1] == e {
      k := |log| - 1;
    } else {
      assert tail[..|tail| - 1] == log[..|log| - 1][from..];
      k := EventIsLogged(log[..|log| - 1], from, t, e);
    }
  }

  // An operation that returns before another is called takes effect before it.
  lemma RealTimeOrder(tr: seq<State>, a1: nat, b1: nat, t1: nat, op1: Op, a2: nat, b2: nat, t2: nat, op2: Op)
    returns (k1: nat, k2: nat)
    requires Run(tr) && b1 <= a2
    requires OneOperation(tr, a1, b1, t1, op1) && tr[b1].threads[t1].Returning?
    requires OneOperation(tr, a2, b2, t2, op2) && tr[b2].threads[t2].Returning?
    ensures k1 < k2 < |tr[b2].log|
    ensures tr[b2].log[k1] == Event(t1, op1, tr[b1].threads[t1].res)
    ensures tr[b2].log[k2] == Event(t2, op2, tr[b2].threads[t2].res)
  {
    OperationsLinearize(tr, a1, b1, t1, op1);
    OperationsLinearize(tr, a2, b2, t2, op2);
    LogGrows(tr, b1, a2);
    k1 := EventIsLogged(tr[b1].log, |tr[a1].log|, t1, Event(t1, op1, tr[b1].threads[t1].res));
    k2 := EventIsLogged(tr[b2].log, |tr[a2].log|, t2, Event(t2, op2, tr[b2].threads[t2].res));
  }

  // ------------------------------------------------------------ what the deque keeps

  /** The value an operation puts in. */
  function Given(op: Op, res: Result): seq<Value> {
    if Producer(op) && res.Done? then [op.v] else []
  }

  /** The values it hands out. */
  function Taken(res: Result): seq<Value> {
    match res
    case Got(v) => [v]
    case Batch(vs) => vs
    case _ => []
  }

  /** The values it throws away. */
  function Dropped(op: Op, q: seq<Value>): seq<Value> {
    if op.Clear? then q else []
  }

  function Pushed(log: seq<Event>): seq<Value> {
    if log == [] then [] else Pushed(log[..|log| - 1]) + Given(log[|log| - 1].op, log[|log| - 1].res)
  }

  function Popped(log: seq<Event>): seq<Value> {
    if log == [] then [] else Popped(log[..|log| - 1]) + Taken(log[|log| - 1].res)
  }

  function Cleared(log: seq<Event>, max: nat): seq<Value> {
    if log == [] then []
    else
      var before := Replay(log[..|log| - 1], max);
      Cleared(log[..|log| - 1], max) + if before.Some? then Dropped(log[|log| - 1].op, before.value) else []
  }

  // No element is lost except by Clear, and none appears twice.
  lemma {:induction false} Conservation(log: seq<Event>, max: nat)
    requires Replay(log, max).Some?
    ensures multiset(Pushed(log)) == multiset(Popped(log)) + multiset(Cleared(log, max)) + multiset(Replay(log, max).value)
  {
    if log == [] {
    } else {
      var init, e := log[..|log| - 1], log[|log| - 1];
      Conservation(init, max);
      var q, q' := Replay(init, max).value, Replay(log, max).value;
      StepConserves(q, max, e.op, e.res);
      assert Pushed(log) == Pushed(init) + Given(e.op, e.res);
      assert Popped(log) == Popped(init) + Taken(e.res);
      assert Cleared(log, max) == Cleared(init, max) + Dropped(e.op, q);
      Rearrange(multiset(Pushed(init)), multiset(Popped(init)), multiset(Cleared(init, max)), multiset(q), multiset(q'),
                multiset(Given(e.op, e.res)), multiset(Taken(e.res)), multiset(Dropped(e.op, q)));
    }
  }

  lemma Rearrange(pushed: multiset<Value>, popped: multiset<Value>, cleared: multiset<Value>,
                  q: multiset<Value>, q': multiset<Value>,
                  push: multiset<Value>, pop: multiset<Value>, clear: multiset<Value>)
    requires pushed == popped + cleared + q && q + push == q' + pop + clear
    ensures pushed + push == (popped + pop) + (cleared + clear) + q'
  {
    assert pushed + push == popped + cleared + (q + push);
  }

  lemma StepConserves(q: seq<Value>, max: nat, op: Op, res: Result)
    requires SpecStep(q, max, op, res).Some?
    ensures multiset(q) + multiset(Given(op, res))
         == multiset(SpecStep(q, max, op, res).value) + multiset(Taken(res)) + multiset(Dropped(op, q))
  {
    if op.Clear? {
    } else if op.PopBack? && res.Got? {
      Balanced(q[..|q| - 1], Taken(res), q, []);
    } else if op.PushFront? && res.Done? {
      Balanced(Given(op, res), q, [], [op.v] + q);
    } else {
      StepInOrder(q, max, op, res);
      Balanced(q, Given(op, res), Taken(res), SpecStep(q, max, op, res).value);
    }
  }

  lemma Balanced(a: seq<Value>, b: seq<Value>, c: seq<Value>, d: seq<Value>)
    requires a + b == c + d
    ensures multiset(a) + multiset(b) == multiset(c) + multiset(d)
  {
    assert multiset(a + b) == multiset(a) + multiset(b);
    assert multiset(c + d) == multiset(c) + multiset(d);
  }

  // In every state of every run the pushed elements are exactly the popped, the cleared and the queued ones.
  lemma NoElementLost(tr: seq<State>, i: nat)
    requires Run(tr) && i < |tr|
    ensures var s := tr[i];
            multiset(Pushed(s.log)) == multiset(Popped(s.log)) + multiset(Cleared(s.log, s.max)) + multiset(s.queue)
  {
    RunInvariant(tr, i);
    Conservation(tr[i].log, tr[i].max);
  }

  predicate Fifo(log: seq<Event>) {
    forall e :: e in log ==> e.op.PushBack? || e.op.PopFront? || e.op.PopAll? || e.op.Size?
  }

  lemma StepInOrder(q: seq<Value>, max: nat, op: Op, res: Result)
    requires SpecStep(q, max, op, res).Some?
    requires op.PushBack? || op.PopFront? || op.PopAll? || op.Size? || res.Failed?
    ensures q + Given(op, res) == Taken(res) + SpecStep(q, max, op, res).value
  {
  }

  // Used as a queue, elements leave in the order they came.
  lemma {:induction false} FirstInFirstOut(log: seq<Event>, max: nat)
    requires Replay(log, max).Some? && Fifo(log)
    ensures Pushed(log) == Popped(log) + Replay(log, max).value
  {
    if log == [] {
    } else {
      var init, e := log[..|log| - 1], log[|log| - 1];
      assert Fifo(init) by { assert forall x :: x in init ==> x in log; }
      FirstInFirstOut(init, max);
      assert e in log;
      var q := Replay(init, max).value;
      StepInOrder(q, max, e.op, e.res);
      InOrder(Pushed(init), Popped(init), q, Replay(log, max).value, Given(e.op, e.res), Taken(e.res));
    }
  }

  lemma InOrder(pushed: seq<Value>, popped: seq<Value>, q: seq<Value>, q': seq<Value>, push: seq<Value>, pop: seq<Value>)
    requires pushed == popped + q && q + push == pop + q'
    ensures pushed + push == (popped + pop) + q'
  {
    assert pushed + push == popped + (q + push);
    assert popped + (pop + q') == (popped + pop) + q';
  }

  // ------------------------------------------------------------ the four ends

  // An element just pushed is what a pop at the same end returns, and the two leave no trace.
  lemma PopUndoesPush(log: seq<Event>, max: nat, push: Event, pop: Event)
    requires Replay(log + [push, pop], max).Some? && push.res.Done?
    requires (push.op.PushBack? && pop.op.PopBack?) || (push.op.PushFront? && pop.op.PopFront?)
    ensures pop.res == Got(push.op.v) && Replay(log + [push, pop], max) == Replay(log, max)
  {
    var q := AlmostReplayed(log, max, push, pop);
    assert pop.res != Failed;
    assert (q + [push.op.v])[..|q|] == q && ([push.op.v] + q)[1..] == q;
  }

  lemma AlmostReplayed(log: seq<Event>, max: nat, x: Event, y: Event) returns (q: seq<Value>)
    requires Replay(log + [x, y], max).Some?
    ensures Replay(log, max) == Some(q) && SpecStep(q, max, x.op, x.res).Some?
    ensures Replay(log + [x, y], max) == SpecStep(SpecStep(q, max, x.op, x.res).value, max, y.op, y.res)
  {
    assert log + [x, y] == (log + [x]) + [y];
    var q' := Replayed(log + [x], max, y);
    q := Replayed(log, max, x);
  }

  // After Clear, and after a PopAll that returns, the queue is empty.
  lemma NothingIsLeft(log: seq<Event>, max: nat, last: Event, size: Event)
    requires Replay(log + [last, size], max).Some? && size.op.Size?
    requires last.op.Clear? || (last.op.PopAll? && last.res.Batch?)
    ensures size.res == Count(0)
  {
    var q := AlmostReplayed(log, max, last, size);
  }

  lemma Replayed(log: seq<Event>, max: nat, e: Event) returns (q: seq<Value>)
    requires Replay(log + [e], max).Some?
    ensures Replay(log, max) == Some(q) && Replay(log + [e], max) == SpecStep(q, max, e.op, e.res)
  {
    assert (log + [e])[..|log|] == log;
    q := Replay(log, max).value;
  }

  // Size counts what was pushed and has not been popped or cleared.
  lemma SizeIsTheBalance(log: seq<Event>, max: nat, size: Event)
    requires Replay(log + [size], max).Some? && size.op.Size?
    ensures size.res.Count? && |Pushed(log)| == |Popped(log)| + |Cleared(log, max)| + size.res.n
  {
    var q := Replayed(log, max, size);
    Conservation(log, max);
    Lengths(Pushed(log), Popped(log), Cleared(log, max), q);
    assert SpecStep(q, max, size.op, size.res).Some?;
  }

  lemma Lengths(a: seq<Value>, b: seq<Value>, c: seq<Value>, d: seq<Value>)
    requires multiset(a) == multiset(b) + multiset(c) + multiset(d)
    ensures |a| == |b| + |c| + |d|
  {
    assert |multiset(a)| == |a| && |multiset(b)| == |b| && |multiset(c)| == |c| && |multiset(d)| == |d|;
  }

  function Reversed(q: seq<Value>): (r: seq<Value>)
    ensures |r| == |q| && forall i :: 0 <= i < |q| ==> r[i] == q[|q| - 1 - i]
  {
    seq(|q|, i requires 0 <= i < |q| => q[|q| - 1 - i])
  }

  /** The same event seen from the other end: fronts and backs change places. */
  function MirrorOp(op: Op): Op {
    match op
    case PushFront(v, timed) => PushBack(v, timed)
    case PushBack(v, timed) => PushFront(v, timed)
    case PopFront(timed) => PopBack(timed)
    case PopBack(timed) => PopFront(timed)
    case _ => op
  }

  function Mirror(e: Event): Event {
    Event(e.t, MirrorOp(e.op), if e.res.Batch? then Batch(Reversed(e.res.vs)) else e.res)
  }

  function Mirrored(log: seq<Event>): seq<Event> {
    seq(|log|, i requires 0 <= i < |log| => Mirror(log[i]))
  }

  lemma ReversedEnds(q: seq<Value>, v: Value)
    ensures Reversed([v] + q) == Reversed(q) + [v] && Reversed(q + [v]) == [v] + Reversed(q)
    ensures q != [] ==> Reversed(q[1..]) == Reversed(q)[..|q| - 1] && Reversed(q[..|q| - 1]) == Reversed(q)[1..]
  {
  }

  lemma MirrorStep(q: seq<Value>, max: nat, e: Event)
    requires SpecStep(q, max, e.op, e.res).Some?
    ensures SpecStep(Reversed(q), max, Mirror(e).op, Mirror(e).res) == Some(Reversed(SpecStep(q, max, e.op, e.res).value))
  {
    ReversedEnds(q, if Producer(e.op) then e.op.v else 0);
  }

  // A legal history with fronts and backs exchanged is legal, and leaves the queue reversed.
  lemma {:induction false} MirrorReplays(log: seq<Event>, max: nat)
    requires Replay(log, max).Some?
    ensures Replay(Mirrored(log), max) == Some(Reversed(Replay(log, max).value))
  {
    if log == [] {
    } else {
      var init, e := log[..|log| - 1], log[|log| - 1];
      MirrorReplays(init, max);
      MirrorStep(Replay(init, max).value, max, e);
      assert Mirrored(log)[..|log| - 1] == Mirrored(init);
    }
  }

  // PopAll, and a TimedPopAll that succeeds, hand over at least one element.
  lemma {:induction false} BatchesAreNonempty(log: seq<Event>, max: nat, i: nat)
    requires Replay(log, max).Some? && i < |log| && log[i].res.Batch?
    ensures log[i].res.vs != []
  {
    if i == |log| - 1 {
    } else {
      BatchesAreNonempty(log[..|log| - 1], max, i);
    }
  }
}
