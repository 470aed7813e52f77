/**
 The edit scripts that Google Test computes to explain a failed equality: a Wagner-Fischer
 table, a traceback, and the interning of lines as numbers.

 Costs are the source's doubles times 100000, so 1 is UNIT and 1.00001 is REPLACE_COST.
 The main results: the script always turns left into right, each cell is the cost of its
 traced script, and the scripts are cheapest for every pair of prefixes exactly when no cell
 falls through to a replacement that an addition or a removal undercuts.
 */
module EditScript {

  datatype Edit = Match | Add | Remove | Replace

  const UNIT: int := 100000
  const REPLACE_COST: int := 100001

  // ---------------------------------------------------------------------------
  // What an edit script is
  // ---------------------------------------------------------------------------

  /** The script consumes exactly left and produces exactly right; it matches only equal
      items and replaces only different ones. Scripts are read from their last edit. */
  predicate Transforms<T(==)>(edits: seq<Edit>, left: seq<T>, right: seq<T>)
    decreases |edits|
  {
    var n, l, r := |edits| - 1, |left| - 1, |right| - 1;
    if edits == [] then left == [] && right == []
    else
      match edits[n]
      case Match => left != [] && right != [] && left[l] == right[r] && Transforms(edits[..n], left[..l], right[..r])
      case Replace => left != [] && right != [] && left[l] != right[r] && Transforms(edits[..n], left[..l], right[..r])
      case Add => right != [] && Transforms(edits[..n], left, right[..r])
      case Remove => left != [] && Transforms(edits[..n], left[..l], right)
  }

  function Weight(e: Edit): int {
    match e
    case Match => 0
    case Replace => REPLACE_COST
    case _ => UNIT
  }

  function TotalWeight(edits: seq<Edit>): int {
    if edits == [] then 0 else TotalWeight(edits[..|edits| - 1]) + Weight(edits[|edits| - 1])
  }

  // ---------------------------------------------------------------------------
  // The tables
  // ---------------------------------------------------------------------------

  /** A cell from its three neighbours: equal items are matched, otherwise one move is chosen. */
  function Choose(same: bool, add: int, remove: int, replace: int): (int, Edit) {
    if same then (replace, Match)
    else if add < remove && add < replace then (add + UNIT, Add)
    else if remove < add && remove < replace then (remove + UNIT, Remove)
    else (replace + REPLACE_COST, Replace)
  }

  /** The cell for the first i items of left and the first j items of right. */
  function Cell<T(==)>(left: seq<T>, right: seq<T>, i: nat, j: nat): (int, Edit)
    requires i <= |left| && j <= |right|
    decreases i + j
  {
    if j == 0 then (i * UNIT, Remove)
    else if i == 0 then (j * UNIT, Add)
    else Choose(left[i - 1] == right[j - 1],
                Cell(left, right, i, j - 1).0, Cell(left, right, i - 1, j).0, Cell(left, right, i - 1, j - 1).0)
  }

  function Cost<T(==)>(left: seq<T>, right: seq<T>, i: nat, j: nat): int
    requires i <= |left| && j <= |right|
  {
    Cell(left, right, i, j).0
  }

  /** The script traced back from a cell. */
  function Script<T(==)>(left: seq<T>, right: seq<T>, i: nat, j: nat): seq<Edit>
    requires i <= |left| && j <= |right|
    decreases i + j
  {
    if i == 0 && j == 0 then []
    else
      var move := Cell(left, right, i, j).1;
      match move
      case Add => Script(left, right, i, j - 1) + [Add]
      case Remove => Script(left, right, i - 1, j) + [Remove]
      case _ => Script(left, right, i - 1, j - 1) + [move]
  }

  // ---------------------------------------------------------------------------
  // The algorithm
  // ---------------------------------------------------------------------------

  ghost predicate Filled<T>(left: seq<T>, right: seq<T>, costs: array2<int>, moves: array2<Edit>,
                                rows: nat, columns: nat)
    requires costs.Length0 == moves.Length0 == |left| + 1
    requires costs.Length1 == moves.Length1 == |right| + 1
    requires rows <= |left| + 1 && columns <= |right| + 1
    reads costs, moves
  {
    forall i, j | 0 <= i < rows && 0 <= j < columns :: (costs[i, j], moves[i, j]) == Cell(left, right, i, j)
  }

  method FillBorders<T(==)>(left: seq<T>, right: seq<T>, costs: array2<int>, moves: array2<Edit>)
    requires costs.Length0 == moves.Length0 == |left| + 1
    requires costs.Length1 == moves.Length1 == |right| + 1
    modifies costs, moves
    ensures Filled(left, right, costs, moves, |left| + 1, 1)
    ensures Filled(left, right, costs, moves, 1, |right| + 1)
  {
    for i := 0 to costs.Length0
      invariant Filled(left, right, costs, moves, i, 1)
    {
      costs[i, 0] := i * UNIT;
      moves[i, 0] := Remove;
    }
    for j := 1 to costs.Length1
      invariant Filled(left, right, costs, moves, |left| + 1, 1)
      invariant Filled(left, right, costs, moves, 1, j)
    {
      costs[0, j] := j * UNIT;
      moves[0, j] := Add;
    }
  }

  /** Fills one cell from its three neighbours. */
  method FillCell<T(==)>(left: seq<T>, right: seq<T>, costs: array2<int>, moves: array2<Edit>, l: nat, r: nat)
    requires costs.Length0 == moves.Length0 == |left| + 1
    requires costs.Length1 == moves.Length1 == |right| + 1
    requires l < |left| && r < |right|
    requires costs[l, r] == Cost(left, right, l, r)
    requires costs[l + 1, r] == Cost(left, right, l + 1, r)
    requires costs[l, r + 1] == Cost(left, right, l, r + 1)
    modifies costs, moves
    ensures (costs[l + 1, r + 1], moves[l + 1, r + 1]) == Cell(left, right, l + 1, r + 1)
    ensures forall i, j | 0 <= i <= |left| && 0 <= j <= |right| && (i != l + 1 || j != r + 1) ::
              costs[i, j] == old(costs[i, j]) && moves[i, j] == old(moves[i, j])
  {
    if left[l] == right[r] {
      costs[l + 1, r + 1] := costs[l, r];
      moves[l + 1, r + 1] := Match;
      return;
    }
    var add := costs[l + 1, r];
    var remove := costs[l, r + 1];
    var replace := costs[l, r];
    if add < remove && add < replace {
      costs[l + 1, r + 1] := add + UNIT;
      moves[l + 1, r + 1] := Add;
    } else if remove < add && remove < replace {
      costs[l + 1, r + 1] := remove + UNIT;
      moves[l + 1, r + 1] := Remove;
    } else {
      costs[l + 1, r + 1] := replace + REPLACE_COST;
      moves[l + 1, r + 1] := Replace;
    }
  }

  method FillRow<T(==)>(left: seq<T>, right: seq<T>, costs: array2<int>, moves: array2<Edit>, l: nat)
    requires costs.Length0 == moves.Length0 == |left| + 1
    requires costs.Length1 == moves.Length1 == |right| + 1
    requires l < |left|
    requires Filled(left, right, costs, moves, |left| + 1, 1)
    requires Filled(left, right, costs, moves, l + 1, |right| + 1)
    modifies costs, moves
    ensures Filled(left, right, costs, moves, |left| + 1, 1)
    ensures Filled(left, right, costs, moves, l + 2, |right| + 1)
  {
    for r := 0 to |right|
      invariant Filled(left, right, costs, moves, |left| + 1, 1)
      invariant Filled(left, right, costs, moves, l + 1, |right| + 1)
      invariant Filled(left, right, costs, moves, l + 2, r + 1)
    {
      assert (costs[l, r], moves[l, r]) == Cell(left, right, l, r);
      assert (costs[l + 1, r], moves[l + 1, r]) == Cell(left, right, l + 1, r);
      assert (costs[l, r + 1], moves[l, r + 1]) == Cell(left, right, l, r + 1);
      FillCell(left, right, costs, moves, l, r);
    }
  }

  function Reversed(s: seq<Edit>): seq<Edit> {
    if s == [] then [] else Reversed(s[1..]) + [s[0]]
  }

  lemma {:induction false} ReversedSnoc(s: seq<Edit>, e: Edit)
    ensures Reversed(s + [e]) == [e] + Reversed(s)
  {
    if s != [] {
      ReversedSnoc(s[1..], e);
      assert (s + [e])[1..] == s[1..] + [e];
    }
  }

  /** One step back from a cell; no index drops below zero. */
  method StepBack<T(==)>(ghost left: seq<T>, ghost right: seq<T>, ghost costs: array2<int>, moves: array2<Edit>, l: nat, r: nat)
    returns (move: Edit, l': nat, r': nat)
    requires costs.Length0 == moves.Length0 == |left| + 1
    requires costs.Length1 == moves.Length1 == |right| + 1
    requires Filled(left, right, costs, moves, |left| + 1, |right| + 1)
    requires l <= |left| && r <= |right| && (l > 0 || r > 0)
    ensures l' <= l && r' <= r && l' + r' < l + r
    ensures Script(left, right, l, r) == Script(left, right, l', r') + [move]
  {
    move := moves[l, r];
    assert (costs[l, r], move) == Cell(left, right, l, r);
    l' := l - (if move != Add then 1 else 0);
    r' := r - (if move != Remove then 1 else 0);
  }

  /** One more edit at the end of the backward path. */
  lemma {:induction false} TraceStep(s: seq<Edit>, move: Edit, backwards: seq<Edit>)
    ensures s + [move] + Reversed(backwards) == s + Reversed(backwards + [move])
  {
    ReversedSnoc(backwards, move);
    assert s + [move] + Reversed(backwards) == s + ([move] + Reversed(backwards));
  }

  /** Walks back from the far corner. */
  method Traceback<T(==)>(ghost left: seq<T>, ghost right: seq<T>, ghost costs: array2<int>, moves: array2<Edit>)
    returns (path: seq<Edit>)
    requires costs.Length0 == moves.Length0 == |left| + 1
    requires costs.Length1 == moves.Length1 == |right| + 1
    requires Filled(left, right, costs, moves, |left| + 1, |right| + 1)
    ensures path == Script(left, right, |left|, |right|)
  {
    var l, r := moves.Length0 - 1, moves.Length1 - 1;
    var backwards: seq<Edit> := [];
    ghost var whole := Script(left, right, l, r);
    ghost var ahead := whole;
    assert whole == ahead + Reversed(backwards);
    while l > 0 || r > 0
      invariant 0 <= l <= |left| && 0 <= r <= |right|
      invariant ahead == Script(left, right, l, r) && whole == ahead + Reversed(backwards)
      decreases l + r
    {
      var move, l', r' := StepBack(left, right, costs, moves, l, r);
      ahead := Script(left, right, l', r');
      TraceStep(ahead, move, backwards);
      backwards := backwards + [move];
      l, r := l', r';
    }
    path := Reversed(backwards);
  }

  /** Fills the tables row by row and traces the script back. */
  method CalculateOptimalEdits<T(==)>(left: seq<T>, right: seq<T>) returns (path: seq<Edit>)
    ensures path == Script(left, right, |left|, |right|)
    ensures Transforms(path, left, right)
    ensures NoTies(left, right) ==> forall e | Transforms(e, left, right) :: TotalWeight(path) <= TotalWeight(e)
  {
    var costs := new int[|left| + 1, |right| + 1];
    var moves := new Edit[|left| + 1, |right| + 1]((_, _) => Match);
    FillBorders(left, right, costs, moves);
    for l := 0 to |left|
      invariant Filled(left, right, costs, moves, |left| + 1, 1)
      invariant Filled(left, right, costs, moves, l + 1, |right| + 1)
    {
      FillRow(left, right, costs, moves, l);
    }
    path := Traceback(left, right, costs, moves);
    ScriptTransforms(left, right, |left|, |right|);
    CheapestExactlyWithoutTies(left, right);
    assert NoTies(left, right) ==> Cheapest(left, right, |left|, |right|);
    assert left[..|left|] == left && right[..|right|] == right;
  }

  // ---------------------------------------------------------------------------
  // Every script is valid and costs what its cell says
  // ---------------------------------------------------------------------------

  /** One more edit takes a script one cell further. */
  lemma {:induction false} AppendEdit<T>(s: seq<Edit>, move: Edit, left: seq<T>, right: seq<T>, i: nat, j: nat)
    requires i <= |left| && j <= |right| && (move != Add ==> i > 0) && (move != Remove ==> j > 0)
    requires move == Match ==> left[i - 1] == right[j - 1]
    requires move == Replace ==> left[i - 1] != right[j - 1]
    requires Transforms(s, left[..if move == Add then i else i - 1], right[..if move == Remove then j else j - 1])
    ensures Transforms(s + [move], left[..i], right[..j])
  {
    var l, r, e := left[..i], right[..j], s + [move];
    assert e[..|s|] == s && e[|s|] == move;
    assert i > 0 ==> l[..i - 1] == left[..i - 1] && l[i - 1] == left[i - 1];
    assert j > 0 ==> r[..j - 1] == right[..j - 1] && r[j - 1] == right[j - 1];
  }

  lemma {:induction false} ScriptTransforms<T>(left: seq<T>, right: seq<T>, i: nat, j: nat)
    requires i <= |left| && j <= |right|
    ensures Transforms(Script(left, right, i, j), left[..i], right[..j])
    decreases i + j
  {
    if i > 0 || j > 0 {
      var move := Cell(left, right, i, j).1;
      var i', j' := if move == Add then i else i - 1, if move == Remove then j else j - 1;
      ScriptTransforms(left, right, i', j');
      AppendEdit(Script(left, right, i', j'), move, left, right, i, j);
    }
  }

  lemma {:induction false} ScriptCost<T>(left: seq<T>, right: seq<T>, i: nat, j: nat)
    requires i <= |left| && j <= |right|
    ensures TotalWeight(Script(left, right, i, j)) == Cost(left, right, i, j)
    decreases i + j
  {
    if i > 0 || j > 0 {
      var move := Cell(left, right, i, j).1;
      var i', j' := if move == Add then i else i - 1, if move == Remove then j else j - 1;
      ScriptCost(left, right, i', j');
      var s := Script(left, right, i, j);
      assert s[..|s| - 1] == Script(left, right, i', j');
    }
  }

  /** A cell lies between the difference and the sum of the lengths. */
  lemma {:induction false} CostBounds<T>(left: seq<T>, right: seq<T>, i: nat, j: nat)
    requires i <= |left| && j <= |right|
    ensures (i - j) * UNIT <= Cost(left, right, i, j)
    ensures (j - i) * UNIT <= Cost(left, right, i, j)
    ensures Cost(left, right, i, j) <= (i + j) * UNIT
    decreases i + j
  {
    if i > 0 && j > 0 {
      CostBounds(left, right, i - 1, j - 1);
      CostBounds(left, right, i, j - 1);
      CostBounds(left, right, i - 1, j);
    }
  }

  lemma EqualPrefixes<T>(left: seq<T>, right: seq<T>, i: nat, j: nat)
    requires 0 < i <= |left| && 0 < j <= |right|
    ensures left[..i] == right[..j] <==> left[..i - 1] == right[..j - 1] && left[i - 1] == right[j - 1]
  {
    var l, r := left[..i], right[..j];
    assert l[..i - 1] == left[..i - 1] && r[..j - 1] == right[..j - 1];
    assert l == l[..i - 1] + [left[i - 1]] && r == r[..j - 1] + [right[j - 1]];
  }

  /** A cell is free exactly when the prefixes are equal. */
  lemma {:induction false} CostZero<T>(left: seq<T>, right: seq<T>, i: nat, j: nat)
    requires i <= |left| && j <= |right|
    ensures Cost(left, right, i, j) == 0 <==> left[..i] == right[..j]
    decreases i + j
  {
    CostBounds(left, right, i, j);
    if i > 0 && j > 0 {
      CostBounds(left, right, i - 1, j - 1);
      CostBounds(left, right, i, j - 1);
      CostBounds(left, right, i - 1, j);
      CostZero(left, right, i - 1, j - 1);
      EqualPrefixes(left, right, i, j);
    }
  }

  // ---------------------------------------------------------------------------
  // When the scripts are cheapest
  // ---------------------------------------------------------------------------

  /** An addition or a removal shares the smallest neighbour with another move: neither
      strict comparison fires, and the cell is filled with a dearer replacement. */
  predicate Tie(add: int, remove: int, replace: int) {
    || add == remove <= replace
    || add == replace < remove
    || remove == replace < add
  }

  predicate TiedCell<T(==)>(left: seq<T>, right: seq<T>, i: nat, j: nat)
    requires 1 <= i <= |left| && 1 <= j <= |right|
  {
    && left[i - 1] != right[j - 1]
    && Tie(Cost(left, right, i, j - 1), Cost(left, right, i - 1, j), Cost(left, right, i - 1, j - 1))
  }

  predicate NoTies<T(==)>(left: seq<T>, right: seq<T>) {
    forall i, j | 1 <= i <= |left| && 1 <= j <= |right| :: !TiedCell(left, right, i, j)
  }

  /** No script for the two prefixes is cheaper than the one computed. */
  ghost predicate Cheapest<T>(left: seq<T>, right: seq<T>, i: nat, j: nat)
    requires i <= |left| && j <= |right|
  {
    forall e | Transforms(e, left[..i], right[..j]) :: TotalWeight(Script(left, right, i, j)) <= TotalWeight(e)
  }

  /** A cell is at most one unit away from its neighbours. */
  lemma {:induction false} CostSteps<T>(left: seq<T>, right: seq<T>, i: nat, j: nat)
    requires i <= |left| && j <= |right| && NoTies(left, right)
    ensures i > 0 ==> -UNIT <= Cost(left, right, i, j) - Cost(left, right, i - 1, j) <= UNIT
    ensures j > 0 ==> -UNIT <= Cost(left, right, i, j) - Cost(left, right, i, j - 1) <= UNIT
    decreases i + j
  {
    if i > 0 && j > 0 {
      assert !TiedCell(left, right, i, j);
      CostSteps(left, right, i - 1, j);
      CostSteps(left, right, i, j - 1);
    }
  }

  lemma {:induction false} CostIsLeast<T>(left: seq<T>, right: seq<T>, i: nat, j: nat, e: seq<Edit>)
    requires i <= |left| && j <= |right| && NoTies(left, right)
    requires Transforms(e, left[..i], right[..j])
    ensures Cost(left, right, i, j) <= TotalWeight(e)
    decreases |e|
  {
    if e == [] {
      assert i == 0 && j == 0;
    } else {
      var last := e[|e| - 1];
      var i', j' := if last == Add then i else i - 1, if last == Remove then j else j - 1;
      assert last != Add ==> left[..i][..i - 1] == left[..i'];
      assert last != Remove ==> right[..j][..j - 1] == right[..j'];
      CostIsLeast(left, right, i', j', e[..|e| - 1]);
      CostExtends(left, right, i, j, last);
    }
  }

  /** No single edit leads to a cell more cheaply than the table says. */
  lemma CostExtends<T>(left: seq<T>, right: seq<T>, i: nat, j: nat, last: Edit)
    requires i <= |left| && j <= |right| && NoTies(left, right)
    requires last != Add ==> i > 0
    requires last != Remove ==> j > 0
    requires last == Match ==> left[i - 1] == right[j - 1]
    requires last == Replace ==> left[i - 1] != right[j - 1]
    ensures Cost(left, right, i, j)
         <= Cost(left, right, if last == Add then i else i - 1, if last == Remove then j else j - 1) + Weight(last)
  {
    CostSteps(left, right, i, j);
    if i > 0 && j > 0 {
      assert !TiedCell(left, right, i, j);
    }
  }

  /** At a tie, appending the overlooked addition or removal beats the computed script. */
  lemma TieIsDearer<T>(left: seq<T>, right: seq<T>, i: nat, j: nat)
    requires 1 <= i <= |left| && 1 <= j <= |right| && TiedCell(left, right, i, j)
    ensures !Cheapest(left, right, i, j)
  {
    ScriptCost(left, right, i, j);
    var add := Cost(left, right, i, j - 1) <= Cost(left, right, i - 1, j - 1);
    var i', j', move := if add then i else i - 1, if add then j - 1 else j, if add then Add else Remove;
    var s := Script(left, right, i', j');
    ScriptTransforms(left, right, i', j');
    ScriptCost(left, right, i', j');
    AppendEdit(s, move, left, right, i, j);
    assert (s + [move])[..|s|] == s;
  }

  /** The computed scripts are cheapest for all prefixes if and only if no cell is tied. */
  lemma CheapestExactlyWithoutTies<T>(left: seq<T>, right: seq<T>)
    ensures (forall i, j | 0 <= i <= |left| && 0 <= j <= |right| :: Cheapest(left, right, i, j)) <==> NoTies(left, right)
  {
    if NoTies(left, right) {
      forall i, j, e | 0 <= i <= |left| && 0 <= j <= |right| && Transforms(e, left[..i], right[..j])
        ensures TotalWeight(Script(left, right, i, j)) <= TotalWeight(e)
      {
        CostIsLeast(left, right, i, j, e);
        ScriptCost(left, right, i, j);
      }
    } else {
      var i, j :| 1 <= i <= |left| && 1 <= j <= |right| && TiedCell(left, right, i, j);
      TieIsDearer(left, right, i, j);
    }
  }

  lemma {:induction false} TiedTable()
    ensures Cell("aba", "bab", 1, 1) == (REPLACE_COST, Replace)
    ensures Cell("aba", "bab", 2, 2) == (2 * REPLACE_COST, Replace)
    ensures Cell("aba", "bab", 3, 3) == (3 * REPLACE_COST, Replace)
  {
    var l, r := "aba", "bab";
    assert Cell(l, r, 1, 1) == (REPLACE_COST, Replace);
    assert Cell(l, r, 1, 2) == (UNIT, Match);
    assert Cell(l, r, 2, 1) == (UNIT, Match);
    assert Cell(l, r, 2, 2) == (2 * REPLACE_COST, Replace);
    assert Cell(l, r, 2, 3) == (UNIT, Match);
    assert Cell(l, r, 3, 2) == (UNIT, Match);
  }

  lemma {:induction false} ShiftScript()
    ensures Transforms([Remove, Match, Match, Add], "aba", "bab")
    ensures TotalWeight([Remove, Match, Match, Add]) == 2 * UNIT
  {
    var e := [Remove, Match, Match, Add];
    assert e[..3] == [Remove, Match, Match] && e[..3][..2] == [Remove, Match] && e[..3][..2][..1] == [Remove];
    assert Transforms([Remove], "a", "") && TotalWeight([Remove]) == UNIT;
    assert "ab"[..1] == "a" && "b"[..0] == "";
    assert Transforms([Remove, Match], "ab", "b") && TotalWeight([Remove, Match]) == UNIT;
    assert "aba"[..2] == "ab" && "ba"[..1] == "b";
    assert Transforms([Remove, Match, Match], "aba", "ba") && TotalWeight([Remove, Match, Match]) == UNIT;
    assert "bab"[..2] == "ba";
  }

  /** "aba" to "bab": the script costs three replacements, although a removal and an
      addition suffice. */
  lemma NotAlwaysCheapest()
    ensures TotalWeight(Script("aba", "bab", 3, 3)) == 300003
    ensures Transforms([Remove, Match, Match, Add], "aba", "bab")
    ensures TotalWeight([Remove, Match, Match, Add]) == 200000
  {
    TiedTable();
    ScriptCost("aba", "bab", 3, 3);
    ShiftScript();
  }

  /** No script is cheaper than the difference of the lengths. */
  lemma {:induction false} WeightAtLeast<T>(e: seq<Edit>, left: seq<T>, right: seq<T>)
    requires Transforms(e, left, right)
    ensures TotalWeight(e) >= (|right| - |left|) * UNIT
    decreases |e|
  {
    if e != [] {
      var last := e[|e| - 1];
      WeightAtLeast(e[..|e| - 1], if last == Add then left else left[..|left| - 1],
                    if last == Remove then right else right[..|right| - 1]);
    }
  }

  lemma {:induction false} HarmlessTable()
    ensures TiedCell("ab", "bab", 2, 2) && Cost("ab", "bab", 2, 3) == UNIT
  {
    var l, r := "ab", "bab";
    assert Cell(l, r, 1, 1) == (REPLACE_COST, Replace);
    assert Cell(l, r, 1, 2) == (UNIT, Match);
    assert Cell(l, r, 2, 1) == (UNIT, Match);
  }

  /** "ab" to "bab": a tie off the traced path need not make the returned script dearer. */
  lemma TieMayBeHarmless()
    ensures !NoTies("ab", "bab") && Cheapest("ab", "bab", 2, 3)
  {
    var l, r := "ab", "bab";
    HarmlessTable();
    ScriptCost(l, r, 2, 3);
    forall e | Transforms(e, l[..2], r[..3])
      ensures TotalWeight(Script(l, r, 2, 3)) <= TotalWeight(e)
    {
      WeightAtLeast(e, l[..2], r[..3]);
    }
  }

  // ---------------------------------------------------------------------------
  // Interned lines
  // ---------------------------------------------------------------------------

  /** Gives equal strings equal numbers and different strings different ones. */
  class InternalStrings {
    var ids: map<string, nat>

    ghost predicate Valid()
      reads this
    {
      && (forall s | s in ids :: ids[s] < |ids|)
      && (forall s, t | s in ids && t in ids && s != t :: ids[s] != ids[t])
    }

    constructor ()
      ensures Valid() && ids == map[]
    {
      ids := map[];
    }

    method GetId(str: string) returns (id: nat)
      requires Valid()
      modifies this
      ensures Valid()
      ensures ids == if str in old(ids) then old(ids) else old(ids)[str := |old(ids)|]
      ensures id == ids[str]
    {
      if str in ids {
        return ids[str];
      }
      id := |ids|;
      ids := ids[str := id];
    }
  }

  /** Ids once given stay. */
  ghost predicate Extends(ids: map<string, nat>, ids': map<string, nat>) {
    forall s | s in ids :: s in ids' && ids'[s] == ids[s]
  }

  ghost predicate Interned(lines: seq<string>, result: seq<nat>, ids: map<string, nat>) {
    |result| == |lines| && forall i | 0 <= i < |lines| :: lines[i] in ids && result[i] == ids[lines[i]]
  }

  lemma InternedMore(lines: seq<string>, result: seq<nat>, ids: map<string, nat>, line: string, ids': map<string, nat>)
    requires Interned(lines, result, ids) && Extends(ids, ids') && line in ids'
    ensures Interned(lines + [line], result + [ids'[line]], ids')
  {
  }

  method InternLine(table: InternalStrings, line: string) returns (id: nat)
    requires table.Valid()
    modifies table
    ensures table.Valid() && Extends(old(table.ids), table.ids)
    ensures line in table.ids && id == table.ids[line]
  {
    id := table.GetId(line);
  }

  lemma ExtendsTransitive(a: map<string, nat>, b: map<string, nat>, c: map<string, nat>)
    requires Extends(a, b) && Extends(b, c)
    ensures Extends(a, c)
  {
  }

  method InternAll(table: InternalStrings, lines: seq<string>) returns (result: seq<nat>)
    requires table.Valid()
    modifies table
    ensures table.Valid()
    ensures Extends(old(table.ids), table.ids)
    ensures Interned(lines, result, table.ids)
  {
    result := [];
    assert lines[..0] == [];
    for i := 0 to |lines|
      invariant table.Valid() && Extends(old(table.ids), table.ids)
      invariant Interned(lines[..i], result, table.ids)
    {
      ghost var ids := table.ids;
      var id := InternLine(table, lines[i]);
      ExtendsTransitive(old(table.ids), ids, table.ids);
      InternedMore(lines[..i], result, ids, lines[i], table.ids);
      assert lines[..i + 1] == lines[..i] + [lines[i]];
      result := result + [id];
    }
    assert lines[..|lines|] == lines;
  }

  ghost predicate SameEquality<S, T>(left: seq<S>, right: seq<S>, left': seq<T>, right': seq<T>, k: int, m: int)
    requires 0 <= k < |left| == |left'| && 0 <= m < |right| == |right'|
  {
    left[k] == right[m] <==> left'[k] == right'[m]
  }

  ghost predicate SameEqualities<S, T>(left: seq<S>, right: seq<S>, left': seq<T>, right': seq<T>) {
    && |left'| == |left| && |right'| == |right|
    && forall k, m | 0 <= k < |left| && 0 <= m < |right| :: SameEquality(left, right, left', right', k, m)
  }

  lemma {:induction false} SameCell<S, T>(left: seq<S>, right: seq<S>, left': seq<T>, right': seq<T>, i: nat, j: nat)
    requires 0 < i <= |left| == |left'| && 0 < j <= |right| == |right'|
    requires SameEquality(left, right, left', right', i - 1, j - 1)
    requires Cost(left, right, i, j - 1) == Cost(left', right', i, j - 1)
    requires Cost(left, right, i - 1, j) == Cost(left', right', i - 1, j)
    requires Cost(left, right, i - 1, j - 1) == Cost(left', right', i - 1, j - 1)
    ensures Cell(left, right, i, j) == Cell(left', right', i, j)
  {
  }

  lemma {:induction false} SameCells<S, T>(left: seq<S>, right: seq<S>, left': seq<T>, right': seq<T>, i: nat, j: nat)
    requires SameEqualities(left, right, left', right')
    requires i <= |left| && j <= |right|
    ensures Cell(left, right, i, j) == Cell(left', right', i, j)
    decreases i + j
  {
    if i > 0 && j > 0 {
      SameCells(left, right, left', right', i - 1, j);
      SameCells(left, right, left', right', i, j - 1);
      SameCells(left, right, left', right', i - 1, j - 1);
      SameCell(left, right, left', right', i, j);
    }
  }

  /** Scripts depend only on which items are equal. */
  lemma {:induction false} SameScripts<S, T>(left: seq<S>, right: seq<S>, left': seq<T>, right': seq<T>, i: nat, j: nat)
    requires SameEqualities(left, right, left', right')
    requires i <= |left| && j <= |right|
    ensures Script(left, right, i, j) == Script(left', right', i, j)
    decreases i + j
  {
    SameCells(left, right, left', right', i, j);
    if i > 0 || j > 0 {
      var move := Cell(left, right, i, j).1;
      SameScripts(left, right, left', right', if move == Add then i else i - 1, if move == Remove then j else j - 1);
    }
  }

  /** The overload for lines: the numbers stand in for them faithfully. */
  method CalculateOptimalLineEdits(left: seq<string>, right: seq<string>) returns (path: seq<Edit>)
    ensures path == Script(left, right, |left|, |right|)
    ensures Transforms(path, left, right)
  {
    var table := new InternalStrings();
    var leftIds := InternAll(table, left);
    var rightIds := InternAll(table, right);
    path := CalculateOptimalEdits(leftIds, rightIds);
    SameScripts(left, right, leftIds, rightIds, |left|, |right|);
    ScriptTransforms(left, right, |left|, |right|);
    assert left[..|left|] == left && right[..|right|] == right;
  }
}
