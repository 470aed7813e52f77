/**
 Guards that lock two mutexes at once. The constructor locks the mutex at the lower address
 first; the destructor unlocks in the opposite order. Any number of threads use any number of
 mutexes, one guard at a time each, under an arbitrary scheduler; timeouts are left aside.

 The main results: in every state of every run each mutex belongs to exactly the thread whose
 guard holds it, and some thread can always move, so the guards never deadlock.
 */
module DoubleLock {
  import opened Options

  type Tid = nat

  /** A mutex is its address. */
  type Mutex = nat

  /** How far a guard has come. */
  datatype Phase =
    | LockFirst     // constructor, first timed_lock
    | LockSecond    // constructor, second timed_lock
    | Inside        // constructed; next is the destructor's first unlock
    | UnlockSecond  // destructor, second unlock

  datatype Guard = Guard(lhs: Mutex, rhs: Mutex, phase: Phase) {
    /** The mutex of the constructor's first timed_lock and of the destructor's second unlock. */
    function First(): Mutex {
      if lhs < rhs then lhs else rhs
    }

    /** The mutex of the constructor's second timed_lock and of the destructor's first unlock. */
    function Second(): Mutex {
      if lhs < rhs then rhs else lhs
    }

    function Held(): set<Mutex> {
      match phase
      case LockFirst => {}
      case LockSecond => {First()}
      case Inside => {First(), Second()}
      case UnlockSecond => {First()}
    }

    /** The mutex the guard is waiting for, if it is still being constructed. */
    function Wanted(): Option<Mutex> {
      match phase
      case LockFirst => Some(First())
      case LockSecond => Some(Second())
      case _ => None
    }
  }

  datatype State = State(owners: map<Mutex, Tid>, guards: map<Tid, Guard>)

  const INITIAL := State(map[], map[])

  datatype Step = Create(t: Tid, lhs: Mutex, rhs: Mutex) | Go(t: Tid)

  /** A thread creates a guard for two different mutexes only while it has none. */
  predicate Enabled(s: State, step: Step) {
    match step
    case Create(t, lhs, rhs) => t !in s.guards && lhs != rhs
    case Go(t) => t in s.guards && (s.guards[t].Wanted().Some? ==> s.guards[t].Wanted().value !in s.owners)
  }

  function Apply(s: State, step: Step): State
    requires Enabled(s, step)
  {
    match step
    case Create(t, lhs, rhs) => s.(guards := s.guards[t := Guard(lhs, rhs, LockFirst)])
    case Go(t) =>
      var g := s.guards[t];
      match g.phase
      case LockFirst => State(s.owners[g.First() := t], s.guards[t := g.(phase := LockSecond)])
      case LockSecond => State(s.owners[g.Second() := t], s.guards[t := g.(phase := Inside)])
      case Inside => State(s.owners - {g.Second()}, s.guards[t := g.(phase := UnlockSecond)])
      case UnlockSecond => State(s.owners - {g.First()}, s.guards - {t})
  }

  function Run(steps: seq<Step>): Option<State> {
    if steps == [] then Some(INITIAL)
    else
      var before := Run(steps[..|steps| - 1]);
      var step := steps[|steps| - 1];
      if before.Some? && Enabled(before.value, step) then Some(Apply(before.value, step)) else None
  }

  // ---------------------------------------------------------------------------
  // Ownership
  // ---------------------------------------------------------------------------

  predicate Holds(s: State, t: Tid, m: Mutex) {
    t in s.guards && m in s.guards[t].Held()
  }

  predicate Owns(s: State, t: Tid, m: Mutex) {
    m in s.owners && s.owners[m] == t
  }

  /** A mutex is owned by t exactly while t's guard holds it: no mutex is held twice, none is
      left locked, and every unlock is done by the owner. */
  ghost predicate Consistent(s: State) {
    && (forall t | t in s.guards :: s.guards[t].lhs != s.guards[t].rhs)
    && (forall t, m :: Holds(s, t, m) <==> Owns(s, t, m))
  }

  lemma ConsistentCreate(s: State, t: Tid, lhs: Mutex, rhs: Mutex)
    requires Consistent(s) && Enabled(s, Create(t, lhs, rhs))
    ensures Consistent(Apply(s, Create(t, lhs, rhs)))
  {
    var s' := Apply(s, Create(t, lhs, rhs));
    forall u, m
      ensures Holds(s', u, m) <==> Owns(s', u, m)
    {
      assert Holds(s, u, m) <==> Owns(s, u, m);
    }
  }

  lemma ConsistentGo(s: State, t: Tid)
    requires Consistent(s) && Enabled(s, Go(t))
    ensures Consistent(Apply(s, Go(t)))
  {
    var s', g := Apply(s, Go(t)), s.guards[t];
    assert g.phase.Inside? ==> Holds(s, t, g.First()) && Holds(s, t, g.Second());
    assert g.phase.UnlockSecond? ==> Holds(s, t, g.First());
    forall u, m
      ensures Holds(s', u, m) <==> Owns(s', u, m)
    {
      assert Holds(s, u, m) <==> Owns(s, u, m);
    }
  }

  lemma ConsistentStep(s: State, step: Step)
    requires Consistent(s) && Enabled(s, step)
    ensures Consistent(Apply(s, step))
  {
    match step
    case Create(t, lhs, rhs) => ConsistentCreate(s, t, lhs, rhs);
    case Go(t) => ConsistentGo(s, t);
  }

  lemma {:induction false} AlwaysConsistent(steps: seq<Step>)
    requires Run(steps).Some?
    ensures Consistent(Run(steps).value)
    decreases |steps|
  {
    if steps != [] {
      AlwaysConsistent(steps[..|steps| - 1]);
      ConsistentStep(Run(steps[..|steps| - 1]).value, steps[|steps| - 1]);
    }
  }

  // ---------------------------------------------------------------------------
  // No deadlock
  // ---------------------------------------------------------------------------

  /** Some address lies above every mutex that is waited for. */
  lemma {:induction false} WantedBounded(guards: map<Tid, Guard>) returns (bound: nat)
    ensures forall t | t in guards && guards[t].Wanted().Some? :: guards[t].Wanted().value < bound
    decreases guards.Keys
  {
    if guards == map[] {
      return 0;
    }
    var t :| t in guards;
    var rest := guards - {t};
    assert rest.Keys < guards.Keys;
    bound := WantedBounded(rest);
    forall u | u in guards && u != t
      ensures u in rest && rest[u] == guards[u]
    {
    }
    if guards[t].Wanted().Some? && guards[t].Wanted().value >= bound {
      bound := guards[t].Wanted().value + 1;
    }
  }

  /** Follow the owners from a waiting thread: each is waiting for a higher address than the
      one before, so the chain ends in a thread that can move. */
  lemma {:induction false} ChainEnds(s: State, t: Tid, bound: nat) returns (u: Tid)
    requires Consistent(s)
    requires t in s.guards && s.guards[t].Wanted().Some?
    requires forall v | v in s.guards && s.guards[v].Wanted().Some? :: s.guards[v].Wanted().value < bound
    ensures Enabled(s, Go(u))
    decreases bound - s.guards[t].Wanted().value
  {
    var m := s.guards[t].Wanted().value;
    if m !in s.owners {
      return t;
    }
    u := s.owners[m];
    assert Owns(s, u, m) && Holds(s, u, m);
    if s.guards[u].Wanted().Some? {
      assert m < s.guards[u].Wanted().value;
      u := ChainEnds(s, u, bound);
    }
  }

  /** In every state of every run in which some guard exists, some thread can take its next step. */
  lemma NoDeadlock(steps: seq<Step>) returns (u: Tid)
    requires Run(steps).Some? && Run(steps).value.guards != map[]
    ensures Enabled(Run(steps).value, Go(u))
  {
    var s := Run(steps).value;
    AlwaysConsistent(steps);
    u :| u in s.guards;
    if s.guards[u].Wanted().Some? {
      var bound := WantedBounded(s.guards);
      u := ChainEnds(s, u, bound);
    }
  }
}
