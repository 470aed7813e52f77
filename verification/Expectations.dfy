/**
 Google Mock's expectations and their prerequisites, as built by sequences.

 Every expectation is created after its prerequisites, so the graph is acyclic. The main
 results: retiring an expectation's prerequisites retires exactly the transitive ones; the
 retired set stays closed under prerequisites, which is what makes the early return sound;
 the recursive test for satisfied prerequisites means all transitive ones; and once an
 expectation has served a call, none of its prerequisites ever handles a call again. Every
 EXPECT_CALL statement and every call keeps this, so the members of each sequence are called
 in order in every test program.
 */
module Expectations {

  // ---------------------------------------------------------------------------
  // The prerequisite graph
  // ---------------------------------------------------------------------------

  /** Immediate prerequisites. */
  type Graph = map<Expectation, seq<Expectation>>

  /** Prerequisites are expectations of the graph and older than their dependants. */
  ghost predicate Aged(g: Graph) {
    forall e, i | e in g && 0 <= i < |g[e]| :: g[e][i] in g && g[e][i].id < e.id
  }

  /** p is a prerequisite of e through one of the first n immediate ones. */
  ghost predicate PrecedesVia(g: Graph, p: Expectation, e: Expectation, n: nat)
    requires Aged(g) && e in g && n <= |g[e]|
    decreases e.id, 0
  {
    exists i | 0 <= i < n :: p == g[e][i] || Precedes(g, p, g[e][i])
  }

  /** p is a prerequisite of e, directly or through others. */
  ghost predicate Precedes(g: Graph, p: Expectation, e: Expectation)
    requires Aged(g) && e in g
    decreases e.id, 1
  {
    PrecedesVia(g, p, e, |g[e]|)
  }

  lemma PrecedesStep(g: Graph, p: Expectation, e: Expectation) returns (i: nat)
    requires Aged(g) && e in g && Precedes(g, p, e)
    ensures i < |g[e]| && (p == g[e][i] || Precedes(g, p, g[e][i]))
  {
    assert PrecedesVia(g, p, e, |g[e]|);
    i :| 0 <= i < |g[e]| && (p == g[e][i] || Precedes(g, p, g[e][i]));
  }

  lemma PrecedesNext(g: Graph, p: Expectation, e: Expectation, i: nat)
    requires Aged(g) && e in g && i < |g[e]| && (p == g[e][i] || Precedes(g, p, g[e][i]))
    ensures Precedes(g, p, e)
  {
    assert PrecedesVia(g, p, e, |g[e]|);
  }

  lemma {:induction false} PrecedesIsOlder(g: Graph, p: Expectation, e: Expectation)
    requires Aged(g) && e in g && Precedes(g, p, e)
    ensures p in g && p.id < e.id
    decreases e.id
  {
    var i := PrecedesStep(g, p, e);
    if p != g[e][i] {
      PrecedesIsOlder(g, p, g[e][i]);
    }
  }

  /** The transitive prerequisites of e. */
  ghost function Ancestors(g: Graph, e: Expectation): set<Expectation>
    requires Aged(g) && e in g
  {
    set p | p in g && Precedes(g, p, e)
  }

  /** A set that contains the immediate prerequisites of each of its members. */
  ghost predicate Closed(g: Graph, s: set<Expectation>)
    requires Aged(g)
  {
    forall e, i | e in g && e in s && 0 <= i < |g[e]| :: g[e][i] in s
  }

  lemma {:induction false} ClosedHasAncestors(g: Graph, s: set<Expectation>, e: Expectation)
    requires Aged(g) && Closed(g, s) && e in g && e in s
    ensures Ancestors(g, e) <= s
    decreases e.id
  {
    forall p | p in g && Precedes(g, p, e)
      ensures p in s
    {
      var i := PrecedesStep(g, p, e);
      if p != g[e][i] {
        ClosedHasAncestors(g, s, g[e][i]);
        assert p in Ancestors(g, g[e][i]);
      }
    }
  }

  /** With all prerequisites of e in the set, e may join it. */
  lemma ClosedWithOneMore(g: Graph, s: set<Expectation>, e: Expectation)
    requires Aged(g) && Closed(g, s) && e in g && Ancestors(g, e) <= s
    ensures Closed(g, s + {e})
  {
    forall i | 0 <= i < |g[e]|
      ensures g[e][i] in s
    {
      PrecedesNext(g, g[e][i], e, i);
      assert g[e][i] in Ancestors(g, e);
    }
  }

  /** A newcomer e, or new prerequisites of e, concern nobody older than e. */
  lemma {:induction false} OlderUnaffected(g: Graph, g': Graph, p: Expectation, d: Expectation, e: Expectation)
    requires Aged(g) && Aged(g') && g.Keys <= g'.Keys && d in g && d.id < e.id
    requires forall x | x in g && x != e :: g'[x] == g[x]
    ensures Precedes(g, p, d) <==> Precedes(g', p, d)
    decreases d.id
  {
    forall i | 0 <= i < |g[d]|
      ensures Precedes(g, p, g[d][i]) <==> Precedes(g', p, g[d][i])
    {
      OlderUnaffected(g, g', p, g[d][i], e);
    }
  }

  lemma {:induction false} OlderAncestors(g: Graph, g': Graph, d: Expectation, e: Expectation)
    requires Aged(g) && Aged(g') && g.Keys <= g'.Keys && d in g && d.id < e.id
    requires forall x | x in g && x != e :: g'[x] == g[x]
    ensures Ancestors(g, d) == Ancestors(g', d)
  {
    forall p | p in g'
      ensures p in Ancestors(g, d) <==> p in Ancestors(g', d)
    {
      OlderUnaffected(g, g', p, d, e);
      if Precedes(g, p, d) {
        PrecedesIsOlder(g, p, d);
      }
    }
  }

  // ---------------------------------------------------------------------------
  // Expectations
  // ---------------------------------------------------------------------------

  class Expectation {
    const id: nat                    // order of creation
    const minCalls: nat
    const maxCalls: nat
    const retiresOnSaturation: bool
    var prerequisites: seq<Expectation>
    var callCount: nat
    var retired: bool
    ghost var served: bool           // has handled a call that was not excessive
    ghost var exceeded: bool         // has handled an excessive call

    constructor (id: nat, minCalls: nat, maxCalls: nat, retiresOnSaturation: bool)
      ensures this.id == id && this.minCalls == minCalls && this.maxCalls == maxCalls
      ensures this.retiresOnSaturation == retiresOnSaturation
      ensures prerequisites == [] && callCount == 0 && !retired && !served && !exceeded
    {
      this.id, this.minCalls, this.maxCalls := id, minCalls, maxCalls;
      this.retiresOnSaturation := retiresOnSaturation;
      prerequisites, callCount, retired, served, exceeded := [], 0, false, false, false;
    }

    predicate IsSatisfied()
      reads this
    {
      minCalls <= callCount <= maxCalls
    }

    predicate IsSaturated()
      reads this
    {
      callCount >= maxCalls
    }

    /** Retires every transitive prerequisite and nothing else. */
    method RetireAllPreRequisites(ghost all: set<Expectation>)
      requires this in all && Aged(GraphOf(all)) && Closed(GraphOf(all), Retired(all))
      modifies all`retired
      ensures Closed(GraphOf(all), Retired(all))
      ensures Retired(all) == old(Retired(all)) + Ancestors(GraphOf(all), this)
      decreases id
    {
      ghost var g := GraphOf(all);
      if retired {
        ClosedHasAncestors(g, Retired(all), this);
        return;
      }
      for i := 0 to |prerequisites|
        invariant Closed(g, Retired(all))
        invariant Retired(all) == old(Retired(all)) + AncestorsVia(g, this, i)
      {
        var prerequisite := prerequisites[i];
        assert prerequisite == g[this][i];
        AncestorsViaNext(g, this, i);
        if !prerequisite.retired {
          prerequisite.RetireAllPreRequisites(all);
          ClosedWithOneMore(g, Retired(all), prerequisite);
          ghost var before := Retired(all);
          prerequisite.retired := true;
          assert Retired(all) == before + {prerequisite};
        } else {
          ClosedHasAncestors(g, Retired(all), prerequisite);
        }
      }
    }

    /** True exactly when all transitive prerequisites are satisfied. */
    method AllPrerequisitesAreSatisfied(ghost all: set<Expectation>) returns (satisfied: bool)
      requires this in all && Aged(GraphOf(all))
      ensures satisfied <==> Ancestors(GraphOf(all), this) <= Satisfied(all)
      decreases id
    {
      ghost var g := GraphOf(all);
      for i := 0 to |prerequisites|
        invariant AncestorsVia(g, this, i) <= Satisfied(all)
      {
        var prerequisite := prerequisites[i];
        assert prerequisite == g[this][i];
        AncestorsViaNext(g, this, i);
        var rest := false;
        if prerequisite.IsSatisfied() {
          rest := prerequisite.AllPrerequisitesAreSatisfied(all);
        }
        if !rest {
          AncestorsViaGrow(g, this, i + 1);
          assert !(AncestorsVia(g, this, i + 1) <= Satisfied(all));
          return false;
        }
      }
      return true;
    }
  }

  /** The prerequisites of e that the first n immediate ones account for. */
  ghost function AncestorsVia(g: Graph, e: Expectation, n: nat): set<Expectation>
    requires Aged(g) && e in g && n <= |g[e]|
  {
    set p | p in g && PrecedesVia(g, p, e, n)
  }

  lemma AncestorsViaNext(g: Graph, e: Expectation, i: nat)
    requires Aged(g) && e in g && i < |g[e]|
    ensures AncestorsVia(g, e, i + 1) == AncestorsVia(g, e, i) + {g[e][i]} + Ancestors(g, g[e][i])
  {
    forall p | p in g
      ensures PrecedesVia(g, p, e, i + 1) <==> PrecedesVia(g, p, e, i) || p == g[e][i] || Precedes(g, p, g[e][i])
    {
    }
  }

  lemma AncestorsViaGrow(g: Graph, e: Expectation, n: nat)
    requires Aged(g) && e in g && n <= |g[e]|
    ensures AncestorsVia(g, e, n) <= Ancestors(g, e)
  {
    forall p | p in g && PrecedesVia(g, p, e, n)
      ensures Precedes(g, p, e)
    {
      var i :| 0 <= i < n && (p == g[e][i] || Precedes(g, p, g[e][i]));
      PrecedesNext(g, p, e, i);
    }
  }

  ghost function GraphOf(all: set<Expectation>): Graph
    reads all`prerequisites
  {
    map e | e in all :: e.prerequisites
  }

  ghost function Retired(all: set<Expectation>): set<Expectation>
    reads all`retired
  {
    set e | e in all && e.retired
  }

  ghost function Served(all: set<Expectation>): set<Expectation>
    reads all`served
  {
    set e | e in all && e.served
  }

  ghost function Satisfied(all: set<Expectation>): set<Expectation>
    reads all`callCount
  {
    set e | e in all && e.minCalls <= e.callCount <= e.maxCalls
  }

  // ---------------------------------------------------------------------------
  // Calls
  // ---------------------------------------------------------------------------

  /** Whoever has served a call has seen its prerequisites satisfied and retired for good. */
  ghost predicate InOrder(g: Graph, served: set<Expectation>, retired: set<Expectation>, satisfied: set<Expectation>)
    requires Aged(g)
  {
    forall d | d in g && d in served :: Ancestors(g, d) <= retired && Ancestors(g, d) <= satisfied
  }

  lemma NotOwnPrerequisite(g: Graph, e: Expectation)
    requires Aged(g) && e in g
    ensures e !in Ancestors(g, e)
  {
    if Precedes(g, e, e) {
      PrecedesIsOlder(g, e, e);
    }
  }

  /** Serving one more call keeps the order: the caller's prerequisites are satisfied and now
      retired, and nobody who waits for the caller has been served before. */
  lemma ServingKeepsOrder(g: Graph, served: set<Expectation>, retired: set<Expectation>, satisfied: set<Expectation>,
                          e: Expectation, retired': set<Expectation>, satisfied': set<Expectation>)
    requires Aged(g) && e in g && e !in retired && InOrder(g, served, retired, satisfied)
    requires Ancestors(g, e) <= satisfied && Ancestors(g, e) <= retired'
    requires retired <= retired' && satisfied - {e} <= satisfied'
    ensures InOrder(g, served + {e}, retired', satisfied')
    ensures InOrder(g, served, retired', satisfied')
    ensures forall d | d in g && d in served :: e !in Ancestors(g, d)
  {
    NotOwnPrerequisite(g, e);
  }

  ghost predicate Orderly(all: set<Expectation>)
    reads all
  {
    && Aged(GraphOf(all)) && Closed(GraphOf(all), Retired(all))
    && InOrder(GraphOf(all), Served(all), Retired(all), Satisfied(all))
  }

  /** Whether e would handle a call whose arguments it matches. */
  ghost predicate Ready(all: set<Expectation>, e: Expectation)
    requires e in all && Aged(GraphOf(all))
    reads all
  {
    e !in Retired(all) && Ancestors(GraphOf(all), e) <= Satisfied(all)
  }

  /** RetireAllPreRequisites, then Retire() if the expectation asks for it. */
  method RetireAfterCall(e: Expectation, ghost all: set<Expectation>)
    requires e in all && Aged(GraphOf(all)) && Closed(GraphOf(all), Retired(all)) && !e.retired
    modifies all`retired
    ensures Closed(GraphOf(all), Retired(all))
    ensures Retired(all) == old(Retired(all)) + Ancestors(GraphOf(all), e)
                            + (if e.retiresOnSaturation && e.callCount >= e.maxCalls then {e} else {})
  {
    e.RetireAllPreRequisites(all);
    if e.retiresOnSaturation && e.IsSaturated() {
      ghost var before := Retired(all);
      ClosedWithOneMore(GraphOf(all), before, e);
      e.retired := true;
      assert Retired(all) == before + {e};
    }
  }

  /** IncrementCallCount() */
  method CountCall(e: Expectation, ghost all: set<Expectation>)
    requires e in all
    modifies e`callCount
    ensures e.callCount == old(e.callCount) + 1
    ensures old(Satisfied(all)) - {e} <= Satisfied(all)
  {
    e.callCount := e.callCount + 1;
  }

  /** GetActionForArguments for a saturated expectation. */
  method ExceedCalls(e: Expectation, ghost all: set<Expectation>)
    requires e in all && Orderly(all) && Ready(all, e)
    modifies e`callCount, e`exceeded
    ensures Orderly(all)
    ensures e.callCount == old(e.callCount) + 1 && e.exceeded
    ensures forall d | d in all && d in Served(all) :: e !in Ancestors(GraphOf(all), d)
  {
    ghost var satisfied := Satisfied(all);
    CountCall(e, all);
    e.exceeded := true;
    ExcessiveKeepsOrder(GraphOf(all), Served(all), Retired(all), satisfied, e, Satisfied(all));
  }

  /** For the record: e has served a call. */
  ghost method RecordServed(e: Expectation, all: set<Expectation>)
    requires e in all
    modifies e`served
    ensures e.served && Served(all) == old(Served(all)) + {e}
  {
    e.served := true;
  }

  /** GetActionForArguments for an expectation that is not saturated. */
  method ServeCall(e: Expectation, ghost all: set<Expectation>)
    requires e in all && Orderly(all) && Ready(all, e)
    modifies all`retired, e`callCount, e`served
    ensures Orderly(all)
    ensures e.callCount == old(e.callCount) + 1
    ensures Served(all) == old(Served(all)) + {e}
    ensures Retired(all) == old(Retired(all)) + Ancestors(GraphOf(all), e)
                            + (if e.retiresOnSaturation && e.callCount >= e.maxCalls then {e} else {})
    ensures forall d | d in all && d in old(Served(all)) :: e !in Ancestors(GraphOf(all), d)
  {
    ghost var g, served, retired, satisfied := GraphOf(all), Served(all), Retired(all), Satisfied(all);
    CountCall(e, all);
    RetireAfterCall(e, all);
    RecordServed(e, all);
    ServingKeepsOrder(g, served, retired, satisfied, e, Retired(all), Satisfied(all));
  }

  /** A call whose arguments match e: ShouldHandleArguments, then GetActionForArguments. A
      prerequisite of an expectation that has already served a call never handles one. A call is
      excessive exactly when it goes beyond the limit, and an expectation that retires on
      saturation does so with the last call allowed. */
  method HandleCall(e: Expectation, ghost all: set<Expectation>) returns (handled: bool, excessive: bool)
    requires e in all && Orderly(all)
    modifies all`retired, e`callCount, e`served, e`exceeded
    ensures Orderly(all)
    ensures handled <==> old(Ready(all, e))
    ensures handled ==> forall d | d in all && d in old(Served(all)) :: e !in Ancestors(GraphOf(all), d)
    ensures e.callCount == old(e.callCount) + (if handled then 1 else 0)
    ensures excessive <==> handled && e.callCount > e.maxCalls
    ensures e.served <==> old(e.served) || (handled && !excessive)
    ensures e.exceeded <==> old(e.exceeded) || excessive
    ensures handled && !excessive ==> (e.retired <==> e.retiresOnSaturation && e.callCount == e.maxCalls)
    ensures !handled || excessive ==> Served(all) == old(Served(all)) && Retired(all) == old(Retired(all))
    ensures handled && !excessive ==>
              && Served(all) == old(Served(all)) + {e}
              && Retired(all) == old(Retired(all)) + Ancestors(GraphOf(all), e)
                                 + (if e.retiresOnSaturation && e.callCount == e.maxCalls then {e} else {})
  {
    handled, excessive := false, false;
    if !e.retired {
      handled := e.AllPrerequisitesAreSatisfied(all);
    }
    if handled {
      excessive := e.IsSaturated();
      if excessive {
        ExceedCalls(e, all);
      } else {
        ServeCall(e, all);
        NotOwnPrerequisite(GraphOf(all), e);
        assert e.retired <==> e in Retired(all);
      }
    }
  }

  /** An excessive call changes only the caller, whom no served expectation waits for. */
  lemma ExcessiveKeepsOrder(g: Graph, served: set<Expectation>, retired: set<Expectation>, satisfied: set<Expectation>,
                            e: Expectation, satisfied': set<Expectation>)
    requires Aged(g) && e in g && e !in retired && InOrder(g, served, retired, satisfied)
    requires satisfied - {e} <= satisfied'
    ensures InOrder(g, served, retired, satisfied')
    ensures forall d | d in g && d in served :: e !in Ancestors(g, d)
  {
  }

  // ---------------------------------------------------------------------------
  // Sequences
  // ---------------------------------------------------------------------------

  /** The newest expectation, still being set up. */
  ghost predicate Newest(all: set<Expectation>, e: Expectation)
    reads all
  {
    e in all && !e.served && !e.retired && forall x | x in all && x != e :: x.id < e.id
  }

  /** An older expectation as a further prerequisite of the newest one disturbs nobody. */
  lemma AddingKeepsAged(g: Graph, e: Expectation, p: Expectation)
    requires Aged(g) && e in g && p in g && p.id < e.id
    requires forall x | x in g && x != e :: x.id < e.id
    ensures Aged(g[e := g[e] + [p]])
    ensures forall d | d in g && d != e :: Ancestors(g, d) == Ancestors(g[e := g[e] + [p]], d)
  {
    var g' := g[e := g[e] + [p]];
    assert g'.Keys == g.Keys;
    forall d | d in g && d != e
      ensures Ancestors(g, d) == Ancestors(g', d)
    {
      OlderAncestors(g, g', d, e);
    }
  }

  /** A newcomer without prerequisites disturbs nobody either. */
  lemma NewcomerKeepsOrder(g: Graph, e: Expectation, served: set<Expectation>, retired: set<Expectation>,
                           satisfied: set<Expectation>, satisfied': set<Expectation>)
    requires Aged(g) && (forall x | x in g :: x.id < e.id) && e !in served && e !in retired
    requires Closed(g, retired) && InOrder(g, served, retired, satisfied) && satisfied <= satisfied'
    ensures Aged(g[e := []]) && Closed(g[e := []], retired) && InOrder(g[e := []], served, retired, satisfied')
  {
    var g' := g[e := []];
    forall d | d in g' && d in served
      ensures Ancestors(g', d) <= retired && Ancestors(g', d) <= satisfied'
    {
      OlderAncestors(g, g', d, e);
    }
  }

  /** EXPECT_CALL creates an expectation. */
  method CreateExpectation(id: nat, minCalls: nat, maxCalls: nat, retiresOnSaturation: bool, ghost all: set<Expectation>)
    returns (e: Expectation)
    requires Orderly(all) && forall x | x in all :: x.id < id
    ensures fresh(e) && Orderly(all + {e}) && Newest(all + {e}, e)
    ensures e.id == id && e.minCalls == minCalls && e.maxCalls == maxCalls
    ensures e.retiresOnSaturation == retiresOnSaturation && e.prerequisites == [] && e.callCount == 0 && Tallied(e)
  {
    ghost var g, served, retired, satisfied := GraphOf(all), Served(all), Retired(all), Satisfied(all);
    e := new Expectation(id, minCalls, maxCalls, retiresOnSaturation);
    ghost var all' := all + {e};
    assert GraphOf(all') == g[e := []];
    assert Served(all') == served && Retired(all') == retired;
    NewcomerKeepsOrder(g, e, served, retired, satisfied, Satisfied(all'));
  }

  method AddPrerequisite(e: Expectation, p: Expectation, ghost all: set<Expectation>)
    requires Orderly(all) && Newest(all, e) && p in all && p != e
    modifies e`prerequisites
    ensures Orderly(all) && Newest(all, e)
    ensures e.prerequisites == With(old(e.prerequisites), p)
  {
    if p !in e.prerequisites {
      ghost var g := GraphOf(all);
      AddingKeepsAged(g, e, p);
      e.prerequisites := e.prerequisites + [p];
      assert GraphOf(all) == g[e := g[e] + [p]];
    }
  }

  /** The list with p in it, at the end if it was not there. */
  ghost function With(list: seq<Expectation>, p: Expectation): seq<Expectation> {
    if p in list then list else list + [p]
  }

  /** Member number j has its predecessor as an immediate prerequisite. */
  ghost predicate Linked(members: seq<Expectation>, j: nat)
    requires 0 < j < |members|
    reads {members[j]}`prerequisites
  {
    members[j - 1] in members[j].prerequisites
  }

  class Sequence {
    var last: Expectation?
    ghost var members: seq<Expectation>

    ghost predicate Valid(all: set<Expectation>)
      reads this, all`prerequisites
    {
      && last == (if members == [] then null else members[|members| - 1])
      && (forall i | 0 <= i < |members| :: members[i] in all)
      && (forall j | 0 < j < |members| :: Linked(members, j))
    }

    constructor ()
      ensures last == null && members == []
    {
      last, members := null, [];
    }

    /** The newest expectation joins the sequence: it gets the last member as a prerequisite. */
    method AddExpectation(e: Expectation, ghost all: set<Expectation>)
      requires Orderly(all) && Valid(all) && Newest(all, e)
      modifies this, e`prerequisites
      ensures Orderly(all) && Valid(all) && Newest(all, e)
      ensures members == if old(last) == e then old(members) else old(members) + [e]
      ensures e.prerequisites == if old(last) == e || old(last) == null then old(e.prerequisites)
                                 else With(old(e.prerequisites), old(last))
    {
      if last != e {
        if last != null {
          AddPrerequisite(e, last, all);
        }
        ghost var longer := members + [e];
        forall j | 0 < j < |longer|
          ensures Linked(longer, j)
        {
          assert j < |members| ==> old(Linked(members, j));
        }
        last := e;
        members := longer;
      }
    }
  }

  /** The calls that an expectation has handled: none beyond its limit unless one was excessive,
      and none that was excessive if it retires on saturation, except that a limit of zero is
      exceeded by any call. */
  ghost predicate Tallied(e: Expectation)
    reads e
  {
    && (e.callCount == 0 <==> !e.served && !e.exceeded)
    && (e.exceeded <==> e.callCount > e.maxCalls)
    && (e.retiresOnSaturation && e.served && e.callCount >= e.maxCalls ==> e.retired)
    && (e.retiresOnSaturation && e.exceeded ==> e.maxCalls == 0)
  }

  /** Ordered expectations, and sequences whose members wait for one another. */
  ghost predicate Sequenced(all: set<Expectation>, sequences: set<Sequence>)
    reads all, sequences
  {
    Orderly(all) && forall s | s in sequences :: s.Valid(all)
  }

  ghost predicate WithinLimits(all: set<Expectation>)
    reads all
  {
    forall e | e in all :: Tallied(e)
  }

  /** The state of a test program. */
  ghost predicate Program(all: set<Expectation>, sequences: set<Sequence>)
    reads all, sequences
  {
    Sequenced(all, sequences) && WithinLimits(all)
  }

  /** Who has served a call and never seen an excessive one is within the limit. */
  lemma ServedWithinLimit(e: Expectation)
    requires Tallied(e) && e.served && !e.exceeded
    ensures 1 <= e.callCount <= e.maxCalls
    ensures e.retiresOnSaturation && e.callCount == e.maxCalls ==> e.retired
  {
  }

  /** The newest expectation is the last member of s, which it has joined unless it was the last
      member before. */
  ghost predicate Joined(s: Sequence, e: Expectation, before: seq<Expectation>)
    reads s
  {
    && s.last == e
    && s.members == if before != [] && before[|before| - 1] == e then before else before + [e]
  }

  /** Joining one sequence leaves the others intact: prerequisites are only added. */
  method Join(s: Sequence, e: Expectation, ghost all: set<Expectation>, ghost sequences: set<Sequence>)
    requires Sequenced(all, sequences) && Newest(all, e) && s in sequences
    modifies s, e`prerequisites
    ensures Sequenced(all, sequences) && Newest(all, e)
    ensures Joined(s, e, old(s.members))
  {
    s.AddExpectation(e, all);
    forall t | t in sequences && t != s
      ensures t.Valid(all)
    {
      assert old(t.Valid(all));
      forall j | 0 < j < |t.members|
        ensures Linked(t.members, j)
      {
        assert old(Linked(t.members, j));
      }
    }
  }

  /** A clause .InSequence(s1, s2, ...) of the newest expectation: the sequences one after the
      other. They may be named twice. */
  method InSequence(e: Expectation, list: seq<Sequence>, ghost all: set<Expectation>, ghost sequences: set<Sequence>)
    requires Sequenced(all, sequences) && Newest(all, e) && (forall i | 0 <= i < |list| :: list[i] in sequences)
    modifies list, e`prerequisites
    ensures Sequenced(all, sequences) && Newest(all, e)
    ensures forall i | 0 <= i < |list| :: Joined(list[i], e, old(list[i].members))
    decreases |list|
  {
    if list != [] {
      var n := |list| - 1;
      InSequence(e, list[..n], all, sequences);
      assert forall i | 0 <= i < n :: list[i] == list[..n][i];
      Join(list[n], e, all, sequences);
    }
  }

  /** A whole EXPECT_CALL statement: a new expectation joins the implicit sequence, if there is
      one, and those of its InSequence clause. The order among the others stays as it was. */
  method ExpectCall(id: nat, minCalls: nat, maxCalls: nat, retiresOnSaturation: bool, list: seq<Sequence>,
                    ghost all: set<Expectation>, ghost sequences: set<Sequence>)
    returns (e: Expectation)
    requires Program(all, sequences) && (forall s | s in list :: s in sequences)
    requires forall x | x in all :: x.id < id
    modifies list
    ensures fresh(e) && Program(all + {e}, sequences) && Newest(all + {e}, e)
    ensures forall s | s in sequences :: s.members == if s in list then old(s.members) + [e] else old(s.members)
  {
    e := CreateExpectation(id, minCalls, maxCalls, retiresOnSaturation, all);
    InSequence(e, list, all + {e}, sequences);
  }

  lemma {:induction false} SequencePrecedes(s: Sequence, all: set<Expectation>, i: nat, j: nat)
    requires Aged(GraphOf(all)) && s.Valid(all) && i < j < |s.members|
    ensures Precedes(GraphOf(all), s.members[i], s.members[j])
    decreases j
  {
    var before, e := s.members[j - 1], s.members[j];
    assert Linked(s.members, j);
    var k :| 0 <= k < |e.prerequisites| && e.prerequisites[k] == before;
    if i < j - 1 {
      SequencePrecedes(s, all, i, j - 1);
    }
    PrecedesNext(GraphOf(all), s.members[i], e, k);
  }

  /** Members of a sequence are called in order: once a later one has served a call, every
      earlier one is satisfied and retired, and so handles no more calls. */
  lemma CalledInSequence(s: Sequence, all: set<Expectation>, i: nat, j: nat)
    requires Orderly(all) && s.Valid(all) && i < j < |s.members| && s.members[j].served
    ensures s.members[i].retired && s.members[i].IsSatisfied()
    ensures !Ready(all, s.members[i])
  {
    SequencePrecedes(s, all, i, j);
    assert s.members[i] in Ancestors(GraphOf(all), s.members[j]);
  }

  /** A call in a test program goes to a member of a sequence only while no later member has
      served one, and the program goes on in order. */
  method Call(e: Expectation, ghost all: set<Expectation>, ghost sequences: set<Sequence>)
    returns (handled: bool, excessive: bool)
    requires Program(all, sequences) && e in all
    modifies all`retired, e`callCount, e`served, e`exceeded
    ensures Program(all, sequences)
    ensures handled <==> old(Ready(all, e))
    ensures e.callCount == old(e.callCount) + (if handled then 1 else 0)
    ensures excessive <==> handled && e.callCount > e.maxCalls
    ensures handled ==> forall s, i, j | s in sequences && 0 <= i < j < |s.members| && s.members[i] == e ::
                          !old(s.members[j].served)
    ensures e.served <==> old(e.served) || (handled && !excessive)
  {
    ghost var served, retired := Served(all), Retired(all);
    assert forall x | x in all :: Tallied(x);
    handled, excessive := HandleCall(e, all);
    forall x | x in all
      ensures Tallied(x)
    {
      assert old(Tallied(x));
      assert x in retired ==> x in Retired(all);
    }
    forall s, i, j | handled && s in sequences && 0 <= i < j < |s.members| && s.members[i] == e
      ensures s.members[j] !in served
    {
      SequencePrecedes(s, all, i, j);
      assert e in Ancestors(GraphOf(all), s.members[j]);
    }
  }
}
