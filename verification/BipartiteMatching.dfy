/**
 Maximum bipartite matching as Google Mock computes it for UnorderedElementsAre:
 a Ford-Fulkerson search that tries every left node exactly once.

 The state machine is the class MaxBipartiteMatchState; the main results are that its
 answer is a matching, that no matching of the graph is larger, and that FindPairing
 accepts exactly the graphs that have a complete assignment of the matchers.
 */
module BipartiteMatching {
  import opened Sets

  /** Connectivity of elements (left, rows) and matchers (right, columns). */
  datatype MatchMatrix = MatchMatrix(lhsSize: nat, rhsSize: nat, matched: seq<seq<bool>>) {
    predicate Valid() {
      && |matched| == lhsSize
      && forall l | 0 <= l < lhsSize :: |matched[l]| == rhsSize
    }

    predicate HasEdge(l: int, r: int)
      requires Valid()
    {
      0 <= l < lhsSize && 0 <= r < rhsSize && matched[l][r]
    }
  }

  type Graph = g: MatchMatrix | g.Valid() witness MatchMatrix(0, 0, [])

  /** An (element, matcher) pair. */
  type Pair = (int, int)

  const UNUSED: int := -1

  // ---------------------------------------------------------------------------
  // What a matching is
  // ---------------------------------------------------------------------------

  ghost predicate IsMatching(g: Graph, m: set<Pair>) {
    && (forall p | p in m :: g.HasEdge(p.0, p.1))
    && (forall p, q | p in m && q in m && p != q :: p.0 != q.0 && p.1 != q.1)
  }

  /** An assignment of one element to every matcher, no element used twice. */
  ghost predicate IsAssignment(g: Graph, f: seq<int>) {
    && |f| == g.rhsSize
    && (forall r | 0 <= r < |f| :: g.HasEdge(f[r], r))
    && (forall r, s | 0 <= r < s < |f| :: f[r] != f[s])
  }

  /** The pairs of an answer, in the order they are pushed. */
  function Elements(ps: seq<Pair>): set<Pair> {
    set p | p in ps
  }

  // ---------------------------------------------------------------------------
  // Weak duality: a vertex cover bounds every matching
  // ---------------------------------------------------------------------------

  ghost predicate Covers(g: Graph, ls: set<int>, rs: set<int>) {
    forall l, r | g.HasEdge(l, r) :: l in ls || r in rs
  }

  lemma {:induction false} MatchingFitsCover(g: Graph, m: set<Pair>, ls: set<int>, rs: set<int>)
    requires IsMatching(g, m)
    requires forall p | p in m :: p.0 in ls || p.1 in rs
    ensures |m| <= |ls| + |rs|
    decreases m
  {
    if m != {} {
      var p := Pick(m);
      var rest := m - {p};
      if p.0 in ls {
        MatchingFitsCover(g, rest, ls - {p.0}, rs);
      } else {
        MatchingFitsCover(g, rest, ls, rs - {p.1});
      }
    }
  }

  // ---------------------------------------------------------------------------
  // The two link vectors
  // ---------------------------------------------------------------------------

  /** left and right refer to each other along edges of the graph; only the right node
      `dangling` may still name a left node that has moved on. */
  ghost predicate Linked(g: Graph, left: seq<int>, right: seq<int>, dangling: int) {
    && |left| == g.lhsSize
    && |right| == g.rhsSize
    && (forall l | 0 <= l < |left| && left[l] != UNUSED ::
          g.HasEdge(l, left[l]) && right[left[l]] == l)
    && (forall r | 0 <= r < |right| && right[r] != UNUSED ::
          0 <= right[r] < |left| && (r != dangling ==> left[right[r]] == r))
  }

  ghost predicate NeighboursIn(g: Graph, l: int, rs: set<int>) {
    forall r | g.HasEdge(l, r) :: r in rs
  }

  /** A set of matched right nodes that the residual graph cannot leave. */
  ghost predicate Closed(g: Graph, right: seq<int>, rs: set<int>)
    requires |right| == g.rhsSize
  {
    forall r | r in rs :: 0 <= r < |right| && right[r] != UNUSED && NeighboursIn(g, right[r], rs)
  }

  ghost function SeenSet(seen: seq<bool>): set<int> {
    set r | 0 <= r < |seen| && seen[r]
  }

  ghost function UnseenSet(seen: seq<bool>): set<int> {
    set r | 0 <= r < |seen| && !seen[r]
  }

  /** The links after a successful search from `start`: `start` is matched now, nobody
      else on the left changed between matched and unmatched, nobody on the right lost
      its partner, and the entries in `kept` are untouched. */
  ghost predicate Augmented(left: seq<int>, right: seq<int>, left': seq<int>, right': seq<int>,
                            start: int, kept: set<int>)
  {
    && |left'| == |left| && |right'| == |right| && 0 <= start < |left|
    && left'[start] != UNUSED
    && left'[start] !in kept
    && (forall l | 0 <= l < |left| && l != start :: left'[l] == UNUSED <==> left[l] == UNUSED)
    && (forall r | 0 <= r < |right| && right[r] != UNUSED :: right'[r] != UNUSED)
    && (forall r | 0 <= r < |right| && r in kept :: right'[r] == right[r])
  }

  lemma AugmentedWeaken(left: seq<int>, right: seq<int>, left': seq<int>, right': seq<int>,
                        start: int, kept: set<int>, fewer: set<int>)
    requires Augmented(left, right, left', right', start, kept)
    requires fewer <= kept
    ensures Augmented(left, right, left', right', start, fewer)
  {
  }

  /** What a failed search has explored: every right node it newly marked is matched and
      the search found nothing unmarked beyond it. */
  ghost predicate Exhausted(g: Graph, right: seq<int>, before: seq<bool>, after: seq<bool>)
    requires |right| == g.rhsSize == |before| == |after|
  {
    forall r | 0 <= r < |right| && after[r] && !before[r] ::
      right[r] != UNUSED && NeighboursIn(g, right[r], SeenSet(after))
  }

  ghost predicate Grows(before: seq<bool>, after: seq<bool>) {
    |before| == |after| && forall r | 0 <= r < |before| && before[r] :: after[r]
  }

  /** Linking `l` to a right node that is free ends the path. */
  lemma LinkToFree(g: Graph, left: seq<int>, right: seq<int>, l: int, r: int, kept: set<int>)
    requires Linked(g, left, right, UNUSED)
    requires g.HasEdge(l, r) && right[r] == UNUSED && r !in kept
    ensures Linked(g, left[l := r], right[r := l], left[l])
    ensures Augmented(left, right, left[l := r], right[r := l], l, kept)
  {
  }

  /** Linking `l` to r after r's partner has moved on extends the path by one segment. */
  lemma LinkToVacated(g: Graph, left0: seq<int>, right0: seq<int>, left: seq<int>, right: seq<int>,
                      l: int, r: int, kept: set<int>)
    requires Linked(g, left0, right0, UNUSED)
    requires g.HasEdge(l, r) && right0[r] != UNUSED && r !in kept
    requires left0[l] != UNUSED ==> left0[l] in kept
    requires Linked(g, left, right, r)
    requires Augmented(left0, right0, left, right, right0[r], kept + {r})
    ensures Linked(g, left[l := r], right[r := l], left0[l])
    ensures Augmented(left0, right0, left[l := r], right[r := l], l, kept)
  {
    assert right[r] == right0[r] && left[right0[r]] != r;
    assert l != right0[r];
    assert left[l] == left0[l];
  }

  ghost function MatchedLeft(left: seq<int>, n: int): set<int>
    requires 0 <= n <= |left|
  {
    set l | 0 <= l < n && left[l] != UNUSED
  }

  lemma MatchedLeftNext(left: seq<int>, n: int)
    requires 0 <= n < |left|
    ensures |MatchedLeft(left, n + 1)| == |MatchedLeft(left, n)| + (if left[n] == UNUSED then 0 else 1)
  {
    if left[n] == UNUSED {
      assert MatchedLeft(left, n + 1) == MatchedLeft(left, n);
    } else {
      assert MatchedLeft(left, n + 1) == MatchedLeft(left, n) + {n};
    }
  }

  lemma OneMoreElement(ps: seq<Pair>, p: Pair)
    requires p !in ps
    ensures |Elements(ps + [p])| == |Elements(ps)| + 1
  {
    assert Elements(ps + [p]) == Elements(ps) + {p};
  }

  lemma {:induction false} ImageSize(right: seq<int>, rs: set<int>)
    requires forall r | r in rs :: 0 <= r < |right|
    requires forall r, s | r in rs && s in rs && r != s :: right[r] != right[s]
    ensures |set r | r in rs :: right[r]| == |rs|
    decreases rs
  {
    if rs != {} {
      var r := Pick(rs);
      ImageSize(right, rs - {r});
      assert (set s | s in rs :: right[s]) == (set s | s in rs - {r} :: right[s]) + {right[r]};
    }
  }

  /** What a failed search from scratch has marked can be added to the closed set. */
  lemma BlockMore(g: Graph, right: seq<int>, blocked: set<int>, before: seq<bool>, after: seq<bool>)
    requires |right| == g.rhsSize == |before| == |after|
    requires Closed(g, right, blocked)
    requires forall r | 0 <= r < |before| :: !before[r]
    requires Exhausted(g, right, before, after)
    ensures Closed(g, right, blocked + SeenSet(after))
  {
  }

  /** The matched left nodes that do not lead into the blocked set. */
  ghost function Free(left: seq<int>, blocked: set<int>): set<int> {
    set l | l in MatchedLeft(left, |left|) && left[l] !in blocked
  }

  /** Every blocked right node is matched, and its partner is not free. */
  lemma CoverSize(g: Graph, left: seq<int>, right: seq<int>, blocked: set<int>)
    requires Linked(g, left, right, UNUSED) && Closed(g, right, blocked)
    ensures |Free(left, blocked)| + |blocked| == |MatchedLeft(left, |left|)|
  {
    var matched, free := MatchedLeft(left, |left|), Free(left, blocked);
    var held := set r | r in blocked :: right[r];
    ImageSize(right, blocked);
    assert held <= matched && free !! held;
    forall l | l in matched
      ensures l in free || l in held
    {
      assert right[left[l]] == l;
    }
    assert matched == free + held;
  }

  lemma FreeAndBlockedCover(g: Graph, left: seq<int>, right: seq<int>, blocked: set<int>)
    requires Linked(g, left, right, UNUSED) && Closed(g, right, blocked)
    requires forall l | 0 <= l < |left| && left[l] == UNUSED :: NeighboursIn(g, l, blocked)
    ensures Covers(g, Free(left, blocked), blocked)
  {
  }

  /** The closed set of blocked right nodes together with the matched left nodes that do
      not lead into it covers every edge, and it is exactly as large as the matching: this
      is why visiting each left node once is enough. */
  lemma ClosedSetCertifiesMaximum(g: Graph, left: seq<int>, right: seq<int>, blocked: set<int>, m: set<Pair>)
    requires Linked(g, left, right, UNUSED)
    requires Closed(g, right, blocked)
    requires forall l | 0 <= l < |left| && left[l] == UNUSED :: NeighboursIn(g, l, blocked)
    requires IsMatching(g, m)
    ensures |m| <= |MatchedLeft(left, |left|)|
  {
    CoverSize(g, left, right, blocked);
    FreeAndBlockedCover(g, left, right, blocked);
    MatchingFitsCover(g, m, Free(left, blocked), blocked);
  }

  class MaxBipartiteMatchState {
    const graph: Graph
    var left: seq<int>
    var right: seq<int>

    constructor (g: Graph)
      ensures graph == g
      ensures Linked(g, left, right, UNUSED)
      ensures forall l | 0 <= l < |left| :: left[l] == UNUSED
      ensures forall r | 0 <= r < |right| :: right[r] == UNUSED
    {
      graph := g;
      left := seq(g.lhsSize, _ => UNUSED);
      right := seq(g.rhsSize, _ => UNUSED);
    }

    /** Depth-first search for an augmenting path from `ilhs`. `blocked` is any closed set
        of right nodes: a successful path never enters it. */
    method TryAugment(ilhs: int, seen: array<bool>, ghost blocked: set<int>) returns (found: bool)
      requires Linked(graph, left, right, UNUSED)
      requires 0 <= ilhs < graph.lhsSize
      requires seen.Length == graph.rhsSize
      requires left[ilhs] != UNUSED ==> seen[left[ilhs]]
      requires Closed(graph, right, blocked)
      modifies this`left, this`right, seen
      ensures Grows(old(seen[..]), seen[..])
      ensures !found ==> left == old(left) && right == old(right)
      ensures !found ==> NeighboursIn(graph, ilhs, SeenSet(seen[..]))
      ensures !found ==> Exhausted(graph, right, old(seen[..]), seen[..])
      ensures found ==> Linked(graph, left, right, old(left[ilhs]))
      ensures found ==> Augmented(old(left), old(right), left, right, ilhs,
                                  old(SeenSet(seen[..])) + blocked)
      ensures NeighboursIn(graph, ilhs, blocked) ==> !found
      decreases UnseenSet(seen[..])
    {
      ghost var seen0 := seen[..];
      for irhs := 0 to graph.rhsSize
        invariant left == old(left) && right == old(right)
        invariant Grows(seen0, seen[..])
        invariant Exhausted(graph, right, seen0, seen[..])
        invariant forall r | 0 <= r < irhs && graph.HasEdge(ilhs, r) :: seen[r]
      {
        if seen[irhs] { continue; }
        if !graph.HasEdge(ilhs, irhs) { continue; }
        ghost var seen1 := seen[..];
        seen[irhs] := true;
        ghost var seen2 := seen[..];
        // Either irhs leads straight to the sink, or its partner is asked to move.
        found := right[irhs] == UNUSED;
        if found {
          LinkToFree(graph, left, right, ilhs, irhs, SeenSet(seen0) + blocked);
        } else {
          assert irhs in UnseenSet(seen0) && irhs in SeenSet(seen2);
          found := TryAugment(right[irhs], seen, blocked);
          if found {
            AugmentedWeaken(old(left), old(right), left, right, old(right)[irhs],
                            SeenSet(seen2) + blocked, SeenSet(seen0) + blocked + {irhs});
            LinkToVacated(graph, old(left), old(right), left, right, ilhs, irhs, SeenSet(seen0) + blocked);
          }
        }
        if found {
          left := left[ilhs := irhs];
          right := right[irhs := ilhs];
          return true;
        }
      }
      return false;
    }

    /** Searches from every left node once. The closed set of right nodes that the failed
        searches leave behind certifies that nothing was missed. */
    method AugmentAll() returns (ghost blocked: set<int>)
      requires Linked(graph, left, right, UNUSED)
      requires forall l | 0 <= l < |left| :: left[l] == UNUSED
      modifies this`left, this`right
      ensures Linked(graph, left, right, UNUSED)
      ensures Closed(graph, right, blocked)
      ensures forall l | 0 <= l < |left| && left[l] == UNUSED :: NeighboursIn(graph, l, blocked)
    {
      blocked := {};
      for ilhs := 0 to graph.lhsSize
        invariant Linked(graph, left, right, UNUSED)
        invariant forall l | ilhs <= l < |left| :: left[l] == UNUSED
        invariant Closed(graph, right, blocked)
        invariant forall l | 0 <= l < ilhs && left[l] == UNUSED :: NeighboursIn(graph, l, blocked)
      {
        assert left[ilhs] == UNUSED;
        var seen := new bool[graph.rhsSize](_ => false);
        ghost var seen0 := seen[..];
        var found := TryAugment(ilhs, seen, blocked);
        if !found {
          BlockMore(graph, right, blocked, seen0, seen[..]);
          blocked := blocked + SeenSet(seen[..]);
        }
      }
    }

    /** Lists the links in the order of the left nodes. */
    method Links() returns (result: seq<Pair>)
      requires Linked(graph, left, right, UNUSED)
      ensures forall p :: p in result <==> 0 <= p.0 < |left| && left[p.0] == p.1 != UNUSED
      ensures |Elements(result)| == |result| == |MatchedLeft(left, |left|)|
    {
      result := [];
      for ilhs := 0 to |left|
        invariant forall p :: p in result <==> 0 <= p.0 < ilhs && left[p.0] == p.1 != UNUSED
        invariant |Elements(result)| == |result| == |MatchedLeft(left, ilhs)|
      {
        MatchedLeftNext(left, ilhs);
        var irhs := left[ilhs];
        if irhs == UNUSED {
          continue;
        }
        OneMoreElement(result, (ilhs, irhs));
        result := result + [(ilhs, irhs)];
      }
    }

    /** The links found are a matching, and no matching of the graph is larger. */
    method Compute() returns (result: seq<Pair>)
      requires Linked(graph, left, right, UNUSED)
      requires forall l | 0 <= l < |left| :: left[l] == UNUSED
      modifies this`left, this`right
      ensures Linked(graph, left, right, UNUSED)
      ensures forall p :: p in result <==> 0 <= p.0 < |left| && left[p.0] == p.1 != UNUSED
      ensures IsMatching(graph, Elements(result))
      ensures |Elements(result)| == |result|
      ensures forall m | IsMatching(graph, m) :: |m| <= |result|
    {
      ghost var blocked := AugmentAll();
      result := Links();
      forall m | IsMatching(graph, m)
        ensures |m| <= |result|
      {
        ClosedSetCertifiesMaximum(graph, left, right, blocked, m);
      }
    }
  }

  /** Returns a maximum matching of the graph, listed without repetition. */
  method FindMaxBipartiteMatching(g: Graph) returns (result: seq<Pair>)
    ensures IsMatching(g, Elements(result))
    ensures |Elements(result)| == |result|
    ensures forall m | IsMatching(g, m) :: |m| <= |result|
  {
    var state := new MaxBipartiteMatchState(g);
    result := state.Compute();
  }

  function AssignmentPairs(f: seq<int>, n: nat): set<Pair>
    requires n <= |f|
  {
    set r | 0 <= r < n :: (f[r], r)
  }

  lemma {:induction false} AssignmentPairsSize(f: seq<int>, n: nat)
    requires n <= |f|
    ensures |AssignmentPairs(f, n)| == n
  {
    if n > 0 {
      AssignmentPairsSize(f, n - 1);
      assert AssignmentPairs(f, n) == AssignmentPairs(f, n - 1) + {(f[n - 1], n - 1)};
    }
  }

  /** The matchers that a set of pairs uses. */
  function RightNodes(m: set<Pair>): set<int> {
    set p | p in m :: p.1
  }

  lemma {:induction false} RightNodesSize(g: Graph, m: set<Pair>)
    requires IsMatching(g, m)
    ensures |RightNodes(m)| == |m|
    decreases m
  {
    if m != {} {
      var p := Pick(m);
      RightNodesSize(g, m - {p});
      assert RightNodes(m) == RightNodes(m - {p}) + {p.1};
    }
  }

  /** The element each matcher is paired with. */
  ghost function AssignmentOf(m: set<Pair>, n: nat): (f: seq<int>)
    requires forall r :: 0 <= r < n ==> r in RightNodes(m)
    ensures |f| == n
    ensures forall r | 0 <= r < n :: (f[r], r) in m
  {
    if n == 0 then []
    else
      assert n - 1 in RightNodes(m);
      var p :| p in m && p.1 == n - 1;
      AssignmentOf(m, n - 1) + [p.0]
  }

  /** A matching that uses every matcher is a complete assignment. */
  lemma MatchingGivesAssignment(g: Graph, m: set<Pair>)
    requires IsMatching(g, m)
    ensures |m| <= g.rhsSize
    ensures |m| == g.rhsSize ==> exists f :: IsAssignment(g, f)
  {
    RightNodesSize(g, m);
    assert RightNodes(m) <= Range(g.rhsSize);
    SubsetSize(RightNodes(m), Range(g.rhsSize));
    if |m| == g.rhsSize {
      SubsetOfSameSize(RightNodes(m), Range(g.rhsSize));
      var f := AssignmentOf(m, g.rhsSize);
      assert IsAssignment(g, f);
    }
  }

  lemma AssignmentGivesMatching(g: Graph, f: seq<int>)
    requires IsAssignment(g, f)
    ensures IsMatching(g, AssignmentPairs(f, |f|))
    ensures |AssignmentPairs(f, |f|)| == g.rhsSize
  {
    AssignmentPairsSize(f, |f|);
  }

  /** True exactly when every matcher can be given its own distinct matching element. */
  method FindPairing(matrix: Graph) returns (result: bool)
    ensures result <==> exists f :: IsAssignment(matrix, f)
  {
    var matches := FindMaxBipartiteMatching(matrix);
    result := |matches| == matrix.rhsSize;
    MatchingGivesAssignment(matrix, Elements(matches));
    forall f | IsAssignment(matrix, f)
      ensures result
    {
      AssignmentGivesMatching(matrix, f);
    }
  }
}
