/**
 The blocking queue as a system of threads that share one mutex, one condition variable and
 one deque. Every step is one of the source's atomic actions: the pthread calls, the writes
 to the mutex's holder field and the accesses to the deque. Any number of threads take part,
 the scheduler is arbitrary and wakeups may be spurious.

 The main results hold in every state of every run: only the owner of the mutex is recorded
 as its holder, items leave the queue in the order they entered it, takeAll() and clearAll()
 leave nothing behind, nobody pops an empty deque, every operation changes the deque exactly
 once and in program order, and somebody can always move. A wakeup is never lost exactly when
 producers put single items or there is only one consumer.
 */
module BlockingQueue {
  import opened Options
  import opened Sets

  /** A thread id; 0 is the id of no thread. */
  type Tid = t: nat | t > 0 witness 1

  /** The queue never looks at its items. */
  type Item = int

  /** put(x) is Put([x]), putAll(v) is Put(v). */
  datatype Operation = Put(items: seq<Item>) | Take | TakeAll | ClearAll | Size

  predicate Consumes(op: Operation) {
    op.Take? || op.TakeAll?
  }

  /** What a thread is about to do. */
  datatype Pc =
    | Locking(op: Operation)       // pthread_mutex_lock in lock()
    | Assigning(op: Operation)     // assign_holder, after lock() or after Wait()
    | Inserting(items: seq<Item>)  // push_back or insert
    | Notifying                    // pthread_cond_signal
    | Checking(op: Operation)      // the test of the while loop
    | Unassigning(op: Operation)   // UnassignGuard at the start of Wait()
    | Waiting(op: Operation)       // pthread_cond_wait: release and sleep
    | Asleep(op: Operation)
    | Awake(op: Operation)         // woken, needs the mutex again
    | Popping(op: Operation)       // pop_front or swap
    | Clearing                     // swap with an empty deque
    | Leaving                      // unassign_holder in unlock()
    | Unlocking                    // pthread_mutex_unlock

  /** What an operation did to the deque: the items it put at the back or took off the front. */
  datatype Event = Event(t: Tid, op: Operation, items: seq<Item>)

  /** Threads that are not in a queue operation have no entry in `pcs`. `history` records what
      has been done to the deque, in order. */
  datatype State = State(owner: Option<Tid>, holder: nat, queue: seq<Item>, pcs: map<Tid, Pc>, history: seq<Event>)

  function Inserted(history: seq<Event>): seq<Item> {
    if history == [] then []
    else
      var n := |history| - 1;
      Inserted(history[..n]) + (if history[n].op.Put? then history[n].items else [])
  }

  function Removed(history: seq<Event>): seq<Item> {
    if history == [] then []
    else
      var n := |history| - 1;
      Removed(history[..n]) + (if history[n].op.Put? then [] else history[n].items)
  }

  /** Who may consume, and whether several items may be put at once. */
  datatype Config = Config(consumers: set<Tid>, bulk: bool)

  const INITIAL := State(None, 0, [], map[], [])

  datatype Step =
    | Begin(t: Tid, op: Operation)
    | Go(t: Tid)                      // the next action of a running thread
    | Signal(t: Tid, wakes: set<Tid>) // pthread_cond_signal by t
    | Spurious(t: Tid)                // a sleeper wakes up on its own

  predicate Permitted(cfg: Config, t: Tid, op: Operation) {
    && (Consumes(op) ==> t in cfg.consumers)
    && (op.Put? && !cfg.bulk ==> |op.items| <= 1)
  }

  function Sleepers(s: State): set<Tid> {
    set t | t in s.pcs && s.pcs[t].Asleep?
  }

  /** Woken but not yet run. */
  function Woken(s: State): set<Tid> {
    set t | t in s.pcs && s.pcs[t].Awake?
  }

  predicate Enabled(cfg: Config, s: State, step: Step) {
    match step
    case Begin(t, op) => t !in s.pcs && Permitted(cfg, t, op)
    case Go(t) =>
      && t in s.pcs
      && !s.pcs[t].Asleep? && !s.pcs[t].Notifying?
      && (s.pcs[t].Locking? || s.pcs[t].Awake? ==> s.owner.None?)
    case Signal(t, wakes) =>
      && t in s.pcs && s.pcs[t].Notifying?
      && wakes <= Sleepers(s)
      && (Sleepers(s) != {} ==> wakes != {})
    case Spurious(t) => t in s.pcs && s.pcs[t].Asleep?
  }

  /** Where a thread goes once it holds the mutex and is recorded as the holder. */
  function Enter(op: Operation): Pc {
    match op
    case Put(items) => Inserting(items)
    case Take => Checking(op)
    case TakeAll => Checking(op)
    case ClearAll => Clearing
    case Size => Leaving
  }

  /** pop_front() takes one item, swap() all of them. */
  function Portion(op: Operation, queue: seq<Item>): (n: nat)
    ensures n <= |queue|
  {
    if op.Take? && queue != [] then 1 else |queue|
  }

  /** Puts the items of an event at the back. */
  function InsertItems(s: State, e: Event): State {
    s.(queue := s.queue + e.items, history := s.history + [e])
  }

  /** Takes the items of an event off the front. */
  function RemoveItems(s: State, e: Event): State
    requires |e.items| <= |s.queue|
  {
    s.(queue := s.queue[|e.items|..], history := s.history + [e])
  }

  function Advance(s: State, t: Tid): State
    requires t in s.pcs
  {
    match s.pcs[t]
    case Locking(op) => s.(owner := Some(t), pcs := s.pcs[t := Assigning(op)])
    case Assigning(op) => s.(holder := t, pcs := s.pcs[t := Enter(op)])
    case Inserting(items) => InsertItems(s, Event(t, Put(items), items)).(pcs := s.pcs[t := Notifying])
    case Checking(op) => s.(pcs := s.pcs[t := if s.queue == [] then Unassigning(op) else Popping(op)])
    case Unassigning(op) => s.(holder := 0, pcs := s.pcs[t := Waiting(op)])
    case Waiting(op) => s.(owner := None, pcs := s.pcs[t := Asleep(op)])
    case Awake(op) => s.(owner := Some(t), pcs := s.pcs[t := Assigning(op)])
    case Popping(op) =>
      RemoveItems(s, Event(t, op, s.queue[..Portion(op, s.queue)])).(pcs := s.pcs[t := Leaving])
    case Clearing => RemoveItems(s, Event(t, ClearAll, s.queue)).(pcs := s.pcs[t := Leaving])
    case Leaving => s.(holder := 0, pcs := s.pcs[t := Unlocking])
    case Unlocking => s.(owner := None, pcs := s.pcs - {t})
    case Notifying => s
    case Asleep(_) => s
  }

  function WakeUp(pc: Pc): Pc {
    if pc.Asleep? then Awake(pc.op) else pc
  }

  function Apply(s: State, step: Step): State
    requires step.Go? || step.Signal? || step.Spurious? ==> step.t in s.pcs
  {
    match step
    case Begin(t, op) => s.(pcs := s.pcs[t := Locking(op)])
    case Go(t) => Advance(s, t)
    case Signal(t, wakes) =>
      s.(pcs := map u | u in s.pcs :: if u == t then Leaving else if u in wakes then WakeUp(s.pcs[u]) else s.pcs[u])
    case Spurious(t) => s.(pcs := s.pcs[t := WakeUp(s.pcs[t])])
  }

  /** The state after a run, if every step of it was possible. */
  function Run(cfg: Config, steps: seq<Step>): Option<State> {
    if steps == [] then Some(INITIAL)
    else
      var before := Run(cfg, steps[..|steps| - 1]);
      var step := steps[|steps| - 1];
      if before.Some? && Enabled(cfg, before.value, step) then Some(Apply(before.value, step)) else None
  }

  ghost predicate Reachable(cfg: Config, s: State) {
    exists steps :: Run(cfg, steps) == Some(s)
  }

  // ---------------------------------------------------------------------------
  // Ownership, holder and the order of items
  // ---------------------------------------------------------------------------

  /** Between taking the mutex and giving it back. */
  predicate Owning(pc: Pc) {
    !pc.Locking? && !pc.Asleep? && !pc.Awake?
  }

  /** Between assign_holder and unassign_holder. */
  predicate Holding(pc: Pc) {
    Owning(pc) && !pc.Assigning? && !pc.Waiting? && !pc.Unlocking?
  }

  ghost predicate Exclusive(s: State) {
    && (s.owner.Some? ==> s.owner.value in s.pcs && Owning(s.pcs[s.owner.value]))
    && (forall t | t in s.pcs && Owning(s.pcs[t]) :: s.owner == Some(t))
  }

  /** The holder field names the owner of the mutex, or nobody. */
  ghost predicate HolderTruthful(s: State)
    requires Exclusive(s)
  {
    s.holder == if s.owner.Some? && Holding(s.pcs[s.owner.value]) then s.owner.value else 0
  }

  ghost predicate FirstInFirstOut(s: State) {
    Removed(s.history) + s.queue == Inserted(s.history)
  }

  /** put() and putAll() insert their items, take() gets one item, takeAll() at least one. */
  predicate Served(e: Event) {
    match e.op
    case Put(items) => e.items == items
    case Take => |e.items| == 1
    case TakeAll => |e.items| >= 1
    case ClearAll => true
    case Size => false
  }

  predicate Sweeps(op: Operation) {
    op.TakeAll? || op.ClearAll?
  }

  /** Each operation did what it should; after takeAll() or clearAll() everything that had been
      inserted has been removed. */
  ghost predicate AllServed(history: seq<Event>) {
    && (forall i | 0 <= i < |history| :: Served(history[i]))
    && (forall i | 0 <= i < |history| && Sweeps(history[i].op) :: SweptUpTo(history, i + 1))
  }

  ghost predicate SweptUpTo(history: seq<Event>, n: nat)
    requires n <= |history|
  {
    Removed(history[..n]) == Inserted(history[..n])
  }

  /** From the test of the while loop up to the removal. */
  predicate InLoop(pc: Pc) {
    pc.Checking? || pc.Unassigning? || pc.Waiting? || pc.Asleep? || pc.Awake? || pc.Popping?
  }

  /** What the while loop has established holds when it is relied on. */
  ghost predicate Guarded(s: State) {
    && (forall t | t in s.pcs :: InLoop(s.pcs[t]) ==> Consumes(s.pcs[t].op))
    && (forall t | t in s.pcs && s.pcs[t].Popping? :: s.queue != [])
    && (forall t | t in s.pcs && (s.pcs[t].Unassigning? || s.pcs[t].Waiting?) :: s.queue == [])
  }

  ghost predicate Safe(s: State) {
    Exclusive(s) && HolderTruthful(s) && FirstInFirstOut(s) && Guarded(s) && AllServed(s.history)
  }

  lemma {:induction false} HistorySnoc(history: seq<Event>, e: Event)
    ensures Inserted(history + [e]) == Inserted(history) + (if e.op.Put? then e.items else [])
    ensures Removed(history + [e]) == Removed(history) + (if e.op.Put? then [] else e.items)
  {
    assert (history + [e])[..|history|] == history;
  }

  lemma Rejoin(out: seq<Item>, queue: seq<Item>, n: nat)
    requires n <= |queue|
    ensures out + queue[..n] + queue[n..] == out + queue
  {
  }

  lemma {:induction false} RemovalKeepsOrder(s: State, e: Event)
    requires FirstInFirstOut(s) && !e.op.Put? && |e.items| <= |s.queue| && e.items == s.queue[..|e.items|]
    ensures FirstInFirstOut(RemoveItems(s, e))
  {
    HistorySnoc(s.history, e);
    Rejoin(Removed(s.history), s.queue, |e.items|);
    assert Inserted(s.history) + [] == Inserted(s.history);
  }

  lemma GoOwnership(cfg: Config, s: State, t: Tid)
    requires Exclusive(s) && HolderTruthful(s) && Enabled(cfg, s, Go(t))
    ensures Exclusive(Advance(s, t)) && HolderTruthful(Advance(s, t))
  {
  }

  lemma {:induction false} InsertKeepsOrder(s: State, e: Event)
    requires FirstInFirstOut(s) && e.op.Put?
    ensures FirstInFirstOut(InsertItems(s, e))
  {
    HistorySnoc(s.history, e);
    var out := Removed(s.history);
    assert out + [] == out;
    assert out + (s.queue + e.items) == out + s.queue + e.items;
  }

  /** Taking a portion off the front; a sweep leaves nothing. */
  lemma {:induction false} PopKeepsOrder(s: State, t: Tid)
    requires FirstInFirstOut(s) && t in s.pcs && s.pcs[t].Popping? && Consumes(s.pcs[t].op)
    ensures FirstInFirstOut(Advance(s, t))
    ensures s.pcs[t].op.TakeAll? ==> Advance(s, t).queue == []
  {
    var op := s.pcs[t].op;
    var n := Portion(op, s.queue);
    var e := Event(t, op, s.queue[..n]);
    assert |e.items| == n;
    RemovalKeepsOrder(s, e);
    assert Advance(s, t) == RemoveItems(s, e).(pcs := s.pcs[t := Leaving]);
  }

  lemma {:induction false} ClearKeepsOrder(s: State, t: Tid)
    requires FirstInFirstOut(s) && t in s.pcs && s.pcs[t].Clearing?
    ensures FirstInFirstOut(Advance(s, t)) && Advance(s, t).queue == []
  {
    var e := Event(t, ClearAll, s.queue);
    assert s.queue[..|s.queue|] == s.queue;
    RemovalKeepsOrder(s, e);
    assert Advance(s, t) == RemoveItems(s, e).(pcs := s.pcs[t := Leaving]);
  }

  lemma {:induction false} GoFirstInFirstOut(cfg: Config, s: State, t: Tid)
    requires FirstInFirstOut(s) && Guarded(s) && Enabled(cfg, s, Go(t))
    ensures FirstInFirstOut(Advance(s, t))
  {
    var pc := s.pcs[t];
    if pc.Inserting? {
      InsertKeepsOrder(s, Event(t, Put(pc.items), pc.items));
    } else if pc.Popping? {
      PopKeepsOrder(s, t);
    } else if pc.Clearing? {
      ClearKeepsOrder(s, t);
    } else {
      var s' := Advance(s, t);
      assert s'.queue == s.queue && s'.history == s.history;
    }
  }

  lemma {:induction false} ServedMore(history: seq<Event>, e: Event)
    requires AllServed(history) && Served(e) && (Sweeps(e.op) ==> Removed(history + [e]) == Inserted(history + [e]))
    ensures AllServed(history + [e])
  {
    var all := history + [e];
    forall i | 0 <= i < |all| && Sweeps(all[i].op)
      ensures SweptUpTo(all, i + 1)
    {
      if i < |history| {
        assert SweptUpTo(history, i + 1);
        assert all[..i + 1] == history[..i + 1];
      } else {
        assert all[..i + 1] == all;
      }
    }
  }

  /** An empty deque means that all insertions have been removed. */
  lemma {:induction false} EmptyIsSwept(s: State)
    requires FirstInFirstOut(s) && s.queue == []
    ensures Removed(s.history) == Inserted(s.history)
  {
    assert Removed(s.history) + [] == Removed(s.history);
  }

  lemma {:induction false} InsertServed(s: State, t: Tid)
    requires AllServed(s.history) && t in s.pcs && s.pcs[t].Inserting?
    ensures AllServed(Advance(s, t).history)
  {
    ServedMore(s.history, Event(t, Put(s.pcs[t].items), s.pcs[t].items));
  }

  lemma {:induction false} PopServed(s: State, t: Tid)
    requires FirstInFirstOut(s) && AllServed(s.history)
    requires t in s.pcs && s.pcs[t].Popping? && Consumes(s.pcs[t].op) && s.queue != []
    ensures AllServed(Advance(s, t).history)
  {
    var op, s' := s.pcs[t].op, Advance(s, t);
    var n := Portion(op, s.queue);
    var e := Event(t, op, s.queue[..n]);
    assert |e.items| == n;
    PopKeepsOrder(s, t);
    if op.TakeAll? {
      EmptyIsSwept(s');
    }
    ServedMore(s.history, e);
  }

  lemma {:induction false} ClearServed(s: State, t: Tid)
    requires FirstInFirstOut(s) && AllServed(s.history) && t in s.pcs && s.pcs[t].Clearing?
    ensures AllServed(Advance(s, t).history)
  {
    ClearKeepsOrder(s, t);
    EmptyIsSwept(Advance(s, t));
    ServedMore(s.history, Event(t, ClearAll, s.queue));
  }

  lemma {:induction false} GoServed(cfg: Config, s: State, t: Tid)
    requires FirstInFirstOut(s) && AllServed(s.history) && Guarded(s) && Enabled(cfg, s, Go(t))
    ensures AllServed(Advance(s, t).history)
  {
    var pc := s.pcs[t];
    if pc.Inserting? {
      InsertServed(s, t);
    } else if pc.Popping? {
      PopServed(s, t);
    } else if pc.Clearing? {
      ClearServed(s, t);
    } else {
      assert Advance(s, t).history == s.history;
    }
  }

  /** Only the owner of the mutex touches the deque, so nobody else's guard is invalidated. */
  lemma GoGuarded(cfg: Config, s: State, t: Tid)
    requires Exclusive(s) && Guarded(s) && Enabled(cfg, s, Go(t))
    ensures Guarded(Advance(s, t))
  {
  }

  lemma {:induction false} SafeGo(cfg: Config, s: State, t: Tid)
    requires Safe(s) && Enabled(cfg, s, Go(t))
    ensures Safe(Advance(s, t))
  {
    GoOwnership(cfg, s, t);
    GoFirstInFirstOut(cfg, s, t);
    GoServed(cfg, s, t);
    GoGuarded(cfg, s, t);
  }

  lemma {:induction false} SafeSignal(cfg: Config, s: State, t: Tid, wakes: set<Tid>)
    requires Safe(s) && Enabled(cfg, s, Signal(t, wakes))
    ensures Safe(Apply(s, Signal(t, wakes)))
  {
  }

  lemma {:induction false} SafeStep(cfg: Config, s: State, step: Step)
    requires Safe(s) && Enabled(cfg, s, step)
    ensures Safe(Apply(s, step))
  {
    match step
    case Begin(_, _) =>
    case Go(t) => SafeGo(cfg, s, t);
    case Signal(t, wakes) => SafeSignal(cfg, s, t, wakes);
    case Spurious(_) =>
  }

  /** In every state of every run the mutex has one owner, its holder field is truthful, the
      items removed and still queued are the items inserted, in order, and the loop's guard
      holds where the deque is popped. */
  lemma {:induction false} AlwaysSafe(cfg: Config, steps: seq<Step>)
    requires Run(cfg, steps).Some?
    ensures Safe(Run(cfg, steps).value)
    decreases |steps|
  {
    if steps != [] {
      AlwaysSafe(cfg, steps[..|steps| - 1]);
      SafeStep(cfg, Run(cfg, steps[..|steps| - 1]).value, steps[|steps| - 1]);
    }
  }

  // ---------------------------------------------------------------------------
  // Every operation is performed once, in program order
  // ---------------------------------------------------------------------------

  /** The operations on the deque that a thread has begun, in order. */
  function Begun(steps: seq<Step>, t: Tid): seq<Operation> {
    if steps == [] then []
    else
      var n := |steps| - 1;
      Begun(steps[..n], t) + (if steps[n].Begin? && steps[n].t == t then Effective(steps[n].op) else [])
  }

  /** size() does nothing to the deque. */
  function Effective(op: Operation): seq<Operation> {
    if op.Size? then [] else [op]
  }

  /** The operations that a thread has performed, in order. */
  function Performed(history: seq<Event>, t: Tid): seq<Operation> {
    if history == [] then []
    else
      var n := |history| - 1;
      Performed(history[..n], t) + (if history[n].t == t then [history[n].op] else [])
  }

  /** What a thread has still to do to the deque. */
  function Pending(pcs: map<Tid, Pc>, t: Tid): seq<Operation> {
    if t !in pcs then []
    else
      match pcs[t]
      case Inserting(items) => [Put(items)]
      case Clearing => [ClearAll]
      case Notifying => []
      case Leaving => []
      case Unlocking => []
      case _ => Effective(pcs[t].op)
  }

  ghost predicate Accounted(s: State, begun: seq<Operation>, t: Tid) {
    begun == Performed(s.history, t) + Pending(s.pcs, t)
  }

  lemma {:induction false} PerformedSnoc(history: seq<Event>, e: Event, t: Tid)
    ensures Performed(history + [e], t) == Performed(history, t) + (if e.t == t then [e.op] else [])
  {
    assert (history + [e])[..|history|] == history;
  }

  predicate Acts(pc: Pc) {
    pc.Inserting? || pc.Popping? || pc.Clearing?
  }

  /** A thread that changes the deque does what it has still to do. */
  lemma {:induction false} ActPerforms(s: State, u: Tid) returns (e: Event)
    requires u in s.pcs && Guarded(s) && Acts(s.pcs[u])
    ensures Advance(s, u).history == s.history + [e] && e.t == u && [e.op] == Pending(s.pcs, u)
    ensures Advance(s, u).pcs == s.pcs[u := Advance(s, u).pcs[u]] && Pending(Advance(s, u).pcs, u) == []
  {
    match s.pcs[u]
    case Inserting(items) => e := Event(u, Put(items), items);
    case Popping(op) => e := Event(u, op, s.queue[..Portion(op, s.queue)]);
    case Clearing => e := Event(u, ClearAll, s.queue);
  }

  lemma AppendDone(done: seq<Operation>, op: Operation)
    ensures done + [op] + [] == done + [op] && done + [] == done
  {
  }

  lemma {:induction false} OwnActAccounts(s: State, t: Tid, begun: seq<Operation>)
    requires t in s.pcs && Guarded(s) && Acts(s.pcs[t]) && Accounted(s, begun, t)
    ensures Accounted(Advance(s, t), begun, t)
  {
    var e := ActPerforms(s, t);
    PerformedSnoc(s.history, e, t);
    AppendDone(Performed(s.history, t), e.op);
  }

  lemma {:induction false} OtherActAccounts(s: State, u: Tid, t: Tid, begun: seq<Operation>)
    requires u in s.pcs && u != t && Guarded(s) && Acts(s.pcs[u]) && Accounted(s, begun, t)
    ensures Accounted(Advance(s, u), begun, t)
  {
    var e := ActPerforms(s, u);
    PerformedSnoc(s.history, e, t);
    AppendDone(Performed(s.history, t), e.op);
    assert Pending(Advance(s, u).pcs, t) == Pending(s.pcs, t);
  }

  /** A step of a running thread either leaves its duty alone or performs it. */
  lemma {:induction false} GoAccounts(s: State, u: Tid, t: Tid, begun: seq<Operation>)
    requires u in s.pcs && Guarded(s) && Accounted(s, begun, t)
    ensures Accounted(Advance(s, u), begun, t)
  {
    if !Acts(s.pcs[u]) {
      assert Advance(s, u).history == s.history;
      DutyStays(s, u, t);
    } else if u == t {
      OwnActAccounts(s, t, begun);
    } else {
      OtherActAccounts(s, u, t, begun);
    }
  }

  lemma {:induction false} DutyStays(s: State, u: Tid, t: Tid)
    requires u in s.pcs && Guarded(s) && !Acts(s.pcs[u])
    ensures Pending(Advance(s, u).pcs, t) == Pending(s.pcs, t)
  {
  }

  lemma {:induction false} WakingKeepsDuty(cfg: Config, s: State, step: Step, t: Tid)
    requires Enabled(cfg, s, step) && (step.Signal? || step.Spurious?)
    ensures Pending(Apply(s, step).pcs, t) == Pending(s.pcs, t)
  {
  }

  lemma {:induction false} BeginAddsDuty(s: State, u: Tid, op: Operation, t: Tid)
    requires u !in s.pcs
    ensures Pending(Apply(s, Begin(u, op)).pcs, t) == Pending(s.pcs, t) + (if u == t then Effective(op) else [])
  {
  }

  /** In every run, each put, take, takeAll and clearAll that a thread begins changes the deque
      once, in program order, except for the one the thread may still be in. */
  lemma {:induction false} PerformedInOrder(cfg: Config, steps: seq<Step>, t: Tid)
    requires Run(cfg, steps).Some?
    ensures Accounted(Run(cfg, steps).value, Begun(steps, t), t)
    decreases |steps|
  {
    if steps != [] {
      var before, step := steps[..|steps| - 1], steps[|steps| - 1];
      var s := Run(cfg, before).value;
      PerformedInOrder(cfg, before, t);
      AlwaysSafe(cfg, before);
      match step
      case Begin(u, op) =>
        BeginAddsDuty(s, u, op, t);
        var done, duty := Performed(s.history, t), Pending(s.pcs, t);
        var more := if u == t then Effective(op) else [];
        assert done + duty + more == done + (duty + more);
      case Go(u) =>
        GoAccounts(s, u, t, Begun(before, t));
        assert Begun(before, t) + [] == Begun(before, t);
      case Signal(_, _) =>
        WakingKeepsDuty(cfg, s, step, t);
        assert Begun(before, t) + [] == Begun(before, t);
      case Spurious(_) =>
        WakingKeepsDuty(cfg, s, step, t);
        assert Begun(before, t) + [] == Begun(before, t);
    }
  }

  // ---------------------------------------------------------------------------
  // Progress
  // ---------------------------------------------------------------------------

  /** Nobody is inside an operation, except for threads that wait for items. */
  predicate Quiescent(s: State) {
    s.owner.None? && forall t | t in s.pcs :: s.pcs[t].Asleep?
  }

  /** Unless the system is quiescent, some thread in an operation can take its next step:
      the mutex and the condition variable never leave everybody stuck. */
  lemma SomebodyMoves(cfg: Config, s: State) returns (step: Step)
    requires Safe(s) && !Quiescent(s)
    ensures !step.Begin? && !step.Spurious?
    ensures Enabled(cfg, s, step)
  {
    if s.owner.Some? {
      var t := s.owner.value;
      step := if s.pcs[t].Notifying? then Signal(t, Sleepers(s)) else Go(t);
    } else {
      var t: Tid :| t in s.pcs && !s.pcs[t].Asleep?;
      step := Go(t);
    }
  }

  // ---------------------------------------------------------------------------
  // Wakeups
  // ---------------------------------------------------------------------------

  /** The owner is about to signal, or is a consumer that has yet to take its item. */
  predicate OwnerCounts(s: State) {
    s.owner.Some? && s.owner.value in s.pcs &&
    match s.pcs[s.owner.value]
    case Notifying => true
    case Assigning(op) => Consumes(op)
    case Checking(_) => true
    case Popping(_) => true
    case _ => false
  }

  function Credit(s: State): nat {
    |Woken(s)| + if OwnerCounts(s) then 1 else 0
  }

  predicate ObedientPc(cfg: Config, t: Tid, pc: Pc) {
    match pc
    case Locking(op) => Permitted(cfg, t, op)
    case Assigning(op) => Permitted(cfg, t, op)
    case Inserting(items) => !cfg.bulk ==> |items| <= 1
    case Notifying => true
    case Clearing => true
    case Leaving => true
    case Unlocking => true
    case _ => Consumes(pc.op) && t in cfg.consumers
  }

  /** Every thread sticks to what the configuration permits. */
  ghost predicate Obedient(cfg: Config, s: State) {
    forall t | t in s.pcs :: ObedientPc(cfg, t, s.pcs[t])
  }

  /** While a consumer sleeps, the queued items do not outnumber the consumers on their way. */
  ghost predicate EveryItemHasATaker(s: State) {
    Sleepers(s) != {} ==> |s.queue| <= Credit(s)
  }

  /** While the only consumer sleeps, the queue is empty or a signal is about to be sent. */
  ghost predicate SignalPending(s: State) {
    Sleepers(s) != {} ==> s.queue == [] || (OwnerCounts(s) && s.pcs[s.owner.value].Notifying?)
  }

  lemma ObedientGo(cfg: Config, s: State, t: Tid)
    requires t in s.pcs && Obedient(cfg, s)
    ensures Obedient(cfg, Advance(s, t))
  {
    var s' := Advance(s, t);
    assert ObedientPc(cfg, t, s.pcs[t]);
    assert t in s'.pcs ==> ObedientPc(cfg, t, s'.pcs[t]);
    assert forall u | u in s'.pcs && u != t :: s'.pcs[u] == s.pcs[u];
  }

  lemma ObedientSignal(cfg: Config, s: State, t: Tid, wakes: set<Tid>)
    requires Obedient(cfg, s) && Enabled(cfg, s, Signal(t, wakes))
    ensures Obedient(cfg, Apply(s, Signal(t, wakes)))
  {
  }

  lemma ObedientStep(cfg: Config, s: State, step: Step)
    requires Obedient(cfg, s) && Enabled(cfg, s, step)
    ensures Obedient(cfg, Apply(s, step))
  {
    match step
    case Begin(_, _) =>
    case Go(t) => ObedientGo(cfg, s, t);
    case Signal(t, wakes) => ObedientSignal(cfg, s, t, wakes);
    case Spurious(_) =>
  }

  /** Nobody but t changes. */
  ghost predicate OnlyMoves(pcs: map<Tid, Pc>, pcs': map<Tid, Pc>, t: Tid) {
    forall u: Tid | u != t :: (u in pcs <==> u in pcs') && (u in pcs ==> pcs'[u] == pcs[u])
  }

  lemma AdvanceMovesOne(s: State, t: Tid)
    requires t in s.pcs
    ensures OnlyMoves(s.pcs, Advance(s, t).pcs, t)
    ensures t in Advance(s, t).pcs ==> !Advance(s, t).pcs[t].Awake?
    ensures t in Advance(s, t).pcs && Advance(s, t).pcs[t].Asleep? ==> s.pcs[t].Waiting? || s.pcs[t].Asleep?
  {
  }

  lemma OneLess(a: set<Tid>, b: set<Tid>, t: Tid)
    requires b == a - {t}
    ensures |b| == if t in a then |a| - 1 else |a|
  {
    if t !in a {
      assert a - {t} == a;
    }
  }

  lemma WokenGoes(s: State, t: Tid)
    requires t in s.pcs && !s.pcs[t].Asleep?
    ensures t in Woken(s) ==> |Woken(Advance(s, t))| == |Woken(s)| - 1
    ensures t !in Woken(s) ==> |Woken(Advance(s, t))| == |Woken(s)|
    ensures !s.pcs[t].Waiting? ==> Sleepers(Advance(s, t)) == Sleepers(s)
  {
    AdvanceMovesOne(s, t);
    var s' := Advance(s, t);
    assert Woken(s') == Woken(s) - {t} by {
      forall u: Tid
        ensures u in Woken(s') <==> u in Woken(s) && u != t
      {
      }
    }
    OneLess(Woken(s), Woken(s'), t);
  }

  /** Sleepers in `wakes` become awake, and no other thread falls asleep or wakes up. */
  ghost predicate WakesUp(s: State, s': State, wakes: set<Tid>) {
    && (forall t: Tid :: t in Woken(s') <==> t in Woken(s) || t in wakes)
    && (forall t: Tid :: t in Sleepers(s') <==> t in Sleepers(s) && t !in wakes)
  }

  lemma SignalWakes(s: State, t: Tid, wakes: set<Tid>)
    requires wakes <= Sleepers(s) && t in s.pcs && s.pcs[t].Notifying?
    ensures WakesUp(s, Apply(s, Signal(t, wakes)), wakes)
  {
  }

  lemma SpuriousWakes(s: State, t: Tid)
    requires t in Sleepers(s)
    ensures WakesUp(s, Apply(s, Spurious(t)), {t})
  {
  }

  lemma WokenGrows(s: State, step: Step, wakes: set<Tid>)
    requires wakes <= Sleepers(s)
    requires (step.Spurious? && wakes == {step.t})
             || (step.Signal? && step.wakes == wakes && step.t in s.pcs && s.pcs[step.t].Notifying?)
    ensures step.t in s.pcs
    ensures |Woken(Apply(s, step))| == |Woken(s)| + |wakes|
    ensures Sleepers(Apply(s, step)) == Sleepers(s) - wakes
  {
    if step.Signal? {
      SignalWakes(s, step.t, wakes);
    } else {
      assert step.t in wakes;
      SpuriousWakes(s, step.t);
    }
    assert Woken(s) !! wakes;
    assert Woken(Apply(s, step)) == Woken(s) + wakes;
  }

  lemma BeginChangesNothing(cfg: Config, s: State, t: Tid, op: Operation)
    requires Safe(s) && Enabled(cfg, s, Begin(t, op))
    ensures Woken(Apply(s, Begin(t, op))) == Woken(s)
    ensures Sleepers(Apply(s, Begin(t, op))) == Sleepers(s)
    ensures OwnerCounts(Apply(s, Begin(t, op))) == OwnerCounts(s)
  {
  }

  /** One step moves the items and the credit together: an item more comes with a signal, and
      a consumer gives its credit up only by taking an item or finding none. */
  lemma TakersGo(cfg: Config, s: State, t: Tid)
    requires Safe(s) && Obedient(cfg, s) && Enabled(cfg, s, Go(t))
    requires !cfg.bulk && EveryItemHasATaker(s)
    ensures EveryItemHasATaker(Advance(s, t))
  {
    assert ObedientPc(cfg, t, s.pcs[t]);
    WokenGoes(s, t);
    var s' := Advance(s, t);
    match s.pcs[t]
    case Locking(_) =>
    case Awake(_) =>
      assert OwnerCounts(s');
    case Waiting(_) =>
    case Inserting(_) =>
      assert OwnerCounts(s') && |s'.queue| <= |s.queue| + 1;
    case Popping(_) =>
      assert OwnerCounts(s) && (s'.queue == [] || |s'.queue| == |s.queue| - 1);
    case _ =>
  }

  lemma TakersWake(s: State, step: Step, wakes: set<Tid>)
    requires Safe(s) && wakes <= Sleepers(s)
    requires EveryItemHasATaker(s)
    requires (step.Spurious? && wakes == {step.t}) || (step.Signal? && step.wakes == wakes)
    requires step.Signal? ==> step.t in s.pcs && s.pcs[step.t].Notifying? && (Sleepers(s) != {} ==> wakes != {})
    ensures step.t in s.pcs && EveryItemHasATaker(Apply(s, step))
  {
    WokenGrows(s, step, wakes);
    assert wakes != {} ==> |wakes| >= 1;
    assert step.Spurious? ==> OwnerCounts(Apply(s, step)) == OwnerCounts(s);
  }

  lemma TakersStep(cfg: Config, s: State, step: Step)
    requires Safe(s) && Obedient(cfg, s) && Enabled(cfg, s, step)
    requires !cfg.bulk && EveryItemHasATaker(s)
    ensures EveryItemHasATaker(Apply(s, step))
  {
    match step
    case Begin(t, op) => BeginChangesNothing(cfg, s, t, op);
    case Go(t) => TakersGo(cfg, s, t);
    case Signal(t, wakes) => TakersWake(s, step, wakes);
    case Spurious(t) => TakersWake(s, step, {t});
  }

  lemma SignalPendingGo(cfg: Config, s: State, t: Tid)
    requires Safe(s) && Enabled(cfg, s, Go(t)) && SignalPending(s)
    ensures SignalPending(Advance(s, t))
  {
    WokenGoes(s, t);
    var s' := Advance(s, t);
    match s.pcs[t]
    case Waiting(_) =>
    case Inserting(_) =>
      assert OwnerCounts(s');
    case _ =>
  }

  /** A signal to the only consumer leaves nobody asleep. */
  lemma LoneSleeper(cfg: Config, s: State, wakes: set<Tid>)
    requires Obedient(cfg, s) && |cfg.consumers| <= 1
    requires wakes <= Sleepers(s) && (Sleepers(s) != {} ==> wakes != {})
    ensures wakes == Sleepers(s)
  {
    forall t | t in Sleepers(s)
      ensures t in cfg.consumers
    {
      assert ObedientPc(cfg, t, s.pcs[t]);
    }
    SubsetSize(Sleepers(s), cfg.consumers);
    SubsetSize(wakes, Sleepers(s));
    if wakes != {} {
      assert |wakes| >= 1;
      SubsetOfSameSize(wakes, Sleepers(s));
    }
  }

  lemma SignalStep(cfg: Config, s: State, step: Step)
    requires Safe(s) && Obedient(cfg, s) && Enabled(cfg, s, step)
    requires |cfg.consumers| <= 1 && SignalPending(s)
    ensures SignalPending(Apply(s, step))
  {
    match step
    case Begin(t, op) => BeginChangesNothing(cfg, s, t, op);
    case Go(t) => SignalPendingGo(cfg, s, t);
    case Signal(t, wakes) =>
      LoneSleeper(cfg, s, wakes);
      WokenGrows(s, step, wakes);
    case Spurious(t) =>
      LoneSleeper(cfg, s, {t});
      WokenGrows(s, step, {t});
  }

  lemma {:induction false} AlwaysObedient(cfg: Config, steps: seq<Step>)
    requires Run(cfg, steps).Some?
    ensures Obedient(cfg, Run(cfg, steps).value)
    decreases |steps|
  {
    if steps != [] {
      var before := steps[..|steps| - 1];
      AlwaysObedient(cfg, before);
      AlwaysSafe(cfg, before);
      ObedientStep(cfg, Run(cfg, before).value, steps[|steps| - 1]);
    }
  }

  /** With single puts, in every state of every run: while a consumer sleeps, the queued items
      never exceed the consumers already woken plus the owner, if it is about to signal or to take. */
  lemma {:induction false} ItemsHaveTakers(cfg: Config, steps: seq<Step>)
    requires Run(cfg, steps).Some? && !cfg.bulk
    ensures EveryItemHasATaker(Run(cfg, steps).value)
    decreases |steps|
  {
    if steps != [] {
      var before := steps[..|steps| - 1];
      ItemsHaveTakers(cfg, before);
      AlwaysSafe(cfg, before);
      AlwaysObedient(cfg, before);
      TakersStep(cfg, Run(cfg, before).value, steps[|steps| - 1]);
    }
  }

  lemma {:induction false} LoneConsumerIsSignalled(cfg: Config, steps: seq<Step>)
    requires Run(cfg, steps).Some? && |cfg.consumers| <= 1
    ensures SignalPending(Run(cfg, steps).value)
    decreases |steps|
  {
    if steps != [] {
      var before := steps[..|steps| - 1];
      LoneConsumerIsSignalled(cfg, before);
      AlwaysSafe(cfg, before);
      AlwaysObedient(cfg, before);
      SignalStep(cfg, Run(cfg, before).value, steps[|steps| - 1]);
    }
  }

  // ---------------------------------------------------------------------------
  // Bulk puts to several consumers lose wakeups
  // ---------------------------------------------------------------------------

  lemma {:induction false} ReachStep(cfg: Config, s: State, step: Step)
    requires Reachable(cfg, s) && Enabled(cfg, s, step)
    ensures Reachable(cfg, Apply(s, step))
  {
    var steps :| Run(cfg, steps) == Some(s);
    assert (steps + [step])[..|steps|] == steps;
    assert Run(cfg, steps + [step]) == Some(Apply(s, step));
  }

  lemma ReachGo(cfg: Config, s: State, t: Tid, s': State)
    requires Reachable(cfg, s) && Enabled(cfg, s, Go(t)) && s' == Advance(s, t)
    ensures Reachable(cfg, s')
  {
    ReachStep(cfg, s, Go(t));
  }

  /** Nobody is in the critical section. */
  predicate Free(s: State) {
    s.owner.None? && s.holder == 0
  }

  lemma Overwrite(m: map<Tid, Pc>, t: Tid, a: Pc, b: Pc)
    ensures m[t := a][t := b] == m[t := b]
    ensures t !in m ==> m[t := a] - {t} == m
  {
  }

  /** A thread takes the free mutex and is recorded as its holder. */
  lemma EnterRun(cfg: Config, s: State, t: Tid, op: Operation)
    requires Reachable(cfg, s) && Free(s) && t in s.pcs && (s.pcs[t] == Locking(op) || s.pcs[t] == Awake(op))
    ensures Reachable(cfg, s.(owner := Some(t), holder := t, pcs := s.pcs[t := Enter(op)]))
  {
    Overwrite(s.pcs, t, Assigning(op), Enter(op));
    var s1 := s.(owner := Some(t), pcs := s.pcs[t := Assigning(op)]);
    ReachGo(cfg, s, t, s1);
    ReachGo(cfg, s1, t, s1.(holder := t, pcs := s1.pcs[t := Enter(op)]));
  }

  lemma BeginRun(cfg: Config, s: State, t: Tid, op: Operation)
    requires Reachable(cfg, s) && Free(s) && t !in s.pcs && Permitted(cfg, t, op)
    ensures Reachable(cfg, s.(owner := Some(t), holder := t, pcs := s.pcs[t := Enter(op)]))
  {
    Overwrite(s.pcs, t, Locking(op), Enter(op));
    ReachStep(cfg, s, Begin(t, op));
    EnterRun(cfg, s.(pcs := s.pcs[t := Locking(op)]), t, op);
  }

  /** A thread that is done gives the mutex back. */
  lemma LeaveRun(cfg: Config, s: State, t: Tid)
    requires Reachable(cfg, s) && t in s.pcs && s.pcs[t] == Leaving
    ensures Reachable(cfg, s.(owner := None, holder := 0, pcs := s.pcs - {t}))
  {
    var s1 := s.(holder := 0, pcs := s.pcs[t := Unlocking]);
    ReachGo(cfg, s, t, s1);
    assert s.pcs[t := Unlocking] - {t} == s.pcs - {t};
    ReachGo(cfg, s1, t, s1.(owner := None, pcs := s1.pcs - {t}));
  }

  /** A consumer that finds the queue empty goes to sleep. */
  lemma DozeRun(cfg: Config, s: State, c: Tid)
    requires Reachable(cfg, s) && c in s.pcs && s.pcs[c] == Checking(Take) && s.queue == []
    ensures Reachable(cfg, s.(owner := None, holder := 0, pcs := s.pcs[c := Asleep(Take)]))
  {
    Overwrite(s.pcs, c, Unassigning(Take), Waiting(Take));
    Overwrite(s.pcs, c, Waiting(Take), Asleep(Take));
    var s1 := s.(pcs := s.pcs[c := Unassigning(Take)]);
    ReachGo(cfg, s, c, s1);
    var s2 := s.(holder := 0, pcs := s.pcs[c := Waiting(Take)]);
    ReachGo(cfg, s1, c, s2);
    ReachGo(cfg, s2, c, s2.(owner := None, pcs := s2.pcs[c := Asleep(Take)]));
  }

  lemma SleepRun(cfg: Config, s: State, c: Tid)
    requires Reachable(cfg, s) && Free(s) && c !in s.pcs && c in cfg.consumers && s.queue == []
    ensures Reachable(cfg, s.(pcs := s.pcs[c := Asleep(Take)]))
  {
    Overwrite(s.pcs, c, Checking(Take), Asleep(Take));
    BeginRun(cfg, s, c, Take);
    DozeRun(cfg, s.(owner := Some(c), holder := c, pcs := s.pcs[c := Checking(Take)]), c);
  }

  /** A signal that wakes exactly one of the sleepers. */
  lemma SignalRun(cfg: Config, s: State, p: Tid, c: Tid)
    requires Reachable(cfg, s) && p in s.pcs && s.pcs[p] == Notifying
    requires c in s.pcs && s.pcs[c] == Asleep(Take)
    ensures Reachable(cfg, s.(pcs := s.pcs[c := Awake(Take)][p := Leaving]))
  {
    assert c in Sleepers(s);
    ReachStep(cfg, s, Signal(p, {c}));
    assert Apply(s, Signal(p, {c})).pcs == s.pcs[c := Awake(Take)][p := Leaving];
  }

  /** A producer puts items and wakes one of the sleepers. */
  lemma PutRun(cfg: Config, s: State, p: Tid, items: seq<Item>, c: Tid)
    requires Reachable(cfg, s) && Free(s) && p !in s.pcs && (cfg.bulk || |items| <= 1)
    requires c in s.pcs && s.pcs[c] == Asleep(Take)
    ensures Reachable(cfg, InsertItems(s, Event(p, Put(items), items)).(pcs := s.pcs[c := Awake(Take)]))
  {
    BeginRun(cfg, s, p, Put(items));
    Overwrite(s.pcs, p, Inserting(items), Notifying);
    var s1 := s.(owner := Some(p), holder := p, pcs := s.pcs[p := Inserting(items)]);
    var s2 := InsertItems(s1, Event(p, Put(items), items)).(pcs := s.pcs[p := Notifying]);
    ReachGo(cfg, s1, p, s2);
    SignalRun(cfg, s2, p, c);
    assert s2.pcs[c := Awake(Take)][p := Leaving] == s.pcs[c := Awake(Take)][p := Leaving];
    var s3 := s2.(pcs := s.pcs[c := Awake(Take)][p := Leaving]);
    LeaveRun(cfg, s3, p);
    Overwrite(s.pcs[c := Awake(Take)], p, Leaving, Leaving);
  }

  /** A woken consumer takes the front item and leaves. */
  lemma TakeRun(cfg: Config, s: State, c: Tid)
    requires Reachable(cfg, s) && Free(s) && c in s.pcs && s.pcs[c] == Awake(Take) && s.queue != []
    ensures Reachable(cfg, s.(queue := s.queue[1..], history := s.history + [Event(c, Take, s.queue[..1])], pcs := s.pcs - {c}))
  {
    EnterRun(cfg, s, c, Take);
    Overwrite(s.pcs, c, Checking(Take), Popping(Take));
    Overwrite(s.pcs, c, Popping(Take), Leaving);
    var s1 := s.(owner := Some(c), holder := c, pcs := s.pcs[c := Checking(Take)]);
    var s2 := s1.(pcs := s.pcs[c := Popping(Take)]);
    ReachGo(cfg, s1, c, s2);
    var s3 := s2.(queue := s.queue[1..], history := s.history + [Event(c, Take, s.queue[..1])], pcs := s.pcs[c := Leaving]);
    ReachGo(cfg, s2, c, s3);
    LeaveRun(cfg, s3, c);
    assert s.pcs[c := Leaving] - {c} == s.pcs - {c};
  }

  lemma TwoAsleep(cfg: Config, c: Tid, d: Tid)
    requires c in cfg.consumers && d in cfg.consumers && c != d
    ensures Reachable(cfg, INITIAL.(pcs := map[c := Asleep(Take), d := Asleep(Take)]))
  {
    assert Run(cfg, []) == Some(INITIAL);
    SleepRun(cfg, INITIAL, c);
    var s := INITIAL.(pcs := map[c := Asleep(Take)]);
    SleepRun(cfg, s, d);
    assert s.pcs[d := Asleep(Take)] == map[c := Asleep(Take), d := Asleep(Take)];
  }

  lemma OneAwake(cfg: Config, c: Tid, d: Tid, items: seq<Item>) returns (history: seq<Event>)
    requires cfg.bulk && c in cfg.consumers && d in cfg.consumers && c != d
    ensures Reachable(cfg, INITIAL.(queue := items, history := history, pcs := map[c := Awake(Take), d := Asleep(Take)]))
  {
    TwoAsleep(cfg, c, d);
    var s := INITIAL.(pcs := map[c := Asleep(Take), d := Asleep(Take)]);
    PutRun(cfg, s, c + d, items, c);
    assert s.pcs[c := Awake(Take)] == map[c := Awake(Take), d := Asleep(Take)];
    assert s.queue + items == items;
    history := s.history + [Event(c + d, Put(items), items)];
  }

  /** putAll of two items wakes one of two sleepers: the other sleeps on beside an item. */
  lemma LostWakeup(cfg: Config, c: Tid, d: Tid) returns (s: State)
    requires cfg.bulk && c in cfg.consumers && d in cfg.consumers && c != d
    ensures Reachable(cfg, s) && Quiescent(s) && Sleepers(s) != {} && s.queue != []
  {
    var items := [0, 0];
    var history := OneAwake(cfg, c, d, items);
    s := INITIAL.(queue := items, history := history, pcs := map[c := Awake(Take), d := Asleep(Take)]);
    TakeRun(cfg, s, c);
    s := s.(queue := items[1..], history := s.history + [Event(c, Take, items[..1])], pcs := s.pcs - {c});
    assert d in Sleepers(s);
  }

  /** No consumer ever sleeps beside a queued item while nobody is on the way. */
  ghost predicate NoLostWakeup(cfg: Config) {
    forall s | Reachable(cfg, s) && Quiescent(s) && Sleepers(s) != {} :: s.queue == []
  }

  /** Wakeups are never lost if and only if items are put one at a time or there is at most
      one consumer. */
  lemma NoLostWakeupExactly(cfg: Config)
    ensures NoLostWakeup(cfg) <==> !cfg.bulk || |cfg.consumers| <= 1
  {
    if !cfg.bulk || |cfg.consumers| <= 1 {
      forall s | Reachable(cfg, s) && Quiescent(s) && Sleepers(s) != {}
        ensures s.queue == []
      {
        var steps :| Run(cfg, steps) == Some(s);
        assert Woken(s) == {};
        if !cfg.bulk {
          ItemsHaveTakers(cfg, steps);
        } else {
          LoneConsumerIsSignalled(cfg, steps);
        }
      }
    } else {
      var c := Pick(cfg.consumers);
      assert |cfg.consumers - {c}| >= 1;
      var d := Pick(cfg.consumers - {c});
      var s := LostWakeup(cfg, c, d);
    }
  }
}
