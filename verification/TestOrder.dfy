/**
 The order in which Google Test runs tests: registration, shuffling and restoring.

 Test cases and tests never move; two levels of index vectors say in which order they run.
 The main results: whatever is registered and whatever the random numbers are, a shuffled
 program runs every test exactly once and all death tests before all other tests, and
 unshuffling restores the order of registration.
 */
module TestOrder {
  import opened Arithmetic
  import TestFilter

  // ---------------------------------------------------------------------------
  // Random numbers
  // ---------------------------------------------------------------------------

  const MAX_RANGE: nat := 0x8000_0000

  /** The state that follows a state of the generator. */
  function NextState(state: nat): nat {
    (1103515245 * state + 12345) % MAX_RANGE
  }

  class Random {
    var state: nat

    constructor (seed: nat)
      ensures state == seed
    {
      state := seed;
    }

    /** A linear congruential generator on 32-bit unsigned arithmetic. */
    method Generate(range: nat) returns (r: nat)
      requires 0 < range <= MAX_RANGE
      modifies this
      ensures state < MAX_RANGE && state == NextState(old(state))
      ensures r == Draw(old(state), range)
    {
      NarrowTwice(1103515245 * state + 12345);
      state := (1103515245 * state + 12345) % 0x1_0000_0000 % MAX_RANGE;
      r := state % range;
    }
  }

  /** The wrap-around of 32-bit arithmetic is absorbed by the modulus. */
  lemma NarrowTwice(x: nat)
    ensures x % 0x1_0000_0000 % 0x8000_0000 == x % 0x8000_0000
  {
  }

  // ---------------------------------------------------------------------------
  // Permutations of a range
  // ---------------------------------------------------------------------------

  /** How often x occurs at positions lo .. hi-1. */
  function Tally<T(==)>(v: seq<T>, lo: nat, hi: nat, x: T): nat
    requires lo <= hi <= |v|
    decreases hi
  {
    if lo == hi then 0 else Tally(v, lo, hi - 1, x) + (if v[hi - 1] == x then 1 else 0)
  }

  lemma {:induction false} TallySame<T>(v: seq<T>, w: seq<T>, lo: nat, hi: nat, x: T)
    requires lo <= hi <= |v| && hi <= |w| && forall i | lo <= i < hi :: v[i] == w[i]
    ensures Tally(v, lo, hi, x) == Tally(w, lo, hi, x)
    decreases hi
  {
    if lo < hi {
      TallySame(v, w, lo, hi - 1, x);
    }
  }

  lemma {:induction false} TallySplit<T>(v: seq<T>, lo: nat, mid: nat, hi: nat, x: T)
    requires lo <= mid <= hi <= |v|
    ensures Tally(v, lo, hi, x) == Tally(v, lo, mid, x) + Tally(v, mid, hi, x)
    decreases hi
  {
    if mid < hi {
      TallySplit(v, lo, mid, hi - 1, x);
    }
  }

  lemma {:induction false} TallyUpdate(v: seq<int>, lo: nat, hi: nat, i: nat, y: int, x: int)
    requires lo <= i < hi <= |v|
    ensures Tally(v[i := y], lo, hi, x)
         == Tally(v, lo, hi, x) - (if v[i] == x then 1 else 0) + (if y == x then 1 else 0)
    decreases hi
  {
    if i == hi - 1 {
      TallySame(v, v[i := y], lo, hi - 1, x);
    } else {
      TallyUpdate(v, lo, hi - 1, i, y, x);
    }
  }

  lemma {:induction false} TallyFinds(v: seq<int>, lo: nat, hi: nat, x: int) returns (i: nat)
    requires lo <= hi <= |v| && Tally(v, lo, hi, x) > 0
    ensures lo <= i < hi && v[i] == x
    decreases hi
  {
    if v[hi - 1] == x {
      return hi - 1;
    }
    i := TallyFinds(v, lo, hi - 1, x);
  }

  lemma {:induction false} TallyCounts(v: seq<int>, lo: nat, hi: nat, i: nat)
    requires lo <= i < hi <= |v|
    ensures Tally(v, lo, hi, v[i]) > 0
    decreases hi
  {
    if i < hi - 1 {
      TallyCounts(v, lo, hi - 1, i);
    }
  }

  /** Positions lo .. hi-1 hold the numbers lo .. hi-1, each once. */
  ghost predicate Permutes(v: seq<int>, lo: int, hi: int) {
    0 <= lo <= hi <= |v| && forall k :: Tally(v, lo, hi, k) == if lo <= k < hi then 1 else 0
  }

  lemma PermutesInRange(v: seq<int>, lo: int, hi: int, i: int)
    requires Permutes(v, lo, hi) && lo <= i < hi
    ensures lo <= v[i] < hi
  {
    TallyCounts(v, lo, hi, i);
  }

  lemma {:induction false} IdentityTally(v: seq<int>, lo: nat, hi: nat, k: int)
    requires lo <= hi <= |v| && forall i | lo <= i < hi :: v[i] == i
    ensures Tally(v, lo, hi, k) == if lo <= k < hi then 1 else 0
    decreases hi
  {
    if lo < hi {
      IdentityTally(v, lo, hi - 1, k);
    }
  }

  lemma IdentityPermutes(v: seq<int>, lo: int, hi: int)
    requires 0 <= lo <= hi <= |v| && forall i | lo <= i < hi :: v[i] == i
    ensures Permutes(v, lo, hi)
  {
    forall k
      ensures Tally(v, lo, hi, k) == if lo <= k < hi then 1 else 0
    {
      IdentityTally(v, lo, hi, k);
    }
  }

  /** Only positions begin .. end-1 change, and only by a permutation. */
  ghost predicate Rearranged(v: seq<int>, w: seq<int>, begin: nat, end: nat)
    requires begin <= end <= |v|
  {
    && |w| == |v|
    && (forall x :: Tally(w, begin, end, x) == Tally(v, begin, end, x))
    && (forall i | 0 <= i < |v| && !(begin <= i < end) :: w[i] == v[i])
  }

  /** std::swap of two elements. */
  function Swap(v: seq<int>, i: nat, j: nat): (w: seq<int>)
    requires i < |v| && j < |v|
    ensures |w| == |v|
  {
    v[i := v[j]][j := v[i]]
  }

  lemma SwapRearranges(v: seq<int>, begin: nat, end: nat, i: nat, j: nat)
    requires begin <= i < end <= |v| && begin <= j < end
    ensures Rearranged(v, Swap(v, i, j), begin, end)
  {
    forall x
      ensures Tally(Swap(v, i, j), begin, end, x) == Tally(v, begin, end, x)
    {
      TallyUpdate(v, begin, end, i, v[j], x);
      TallyUpdate(v[i := v[j]], begin, end, j, v[i], x);
    }
  }

  lemma RearrangedPermutes(v: seq<int>, w: seq<int>, begin: nat, end: nat, lo: nat, hi: nat)
    requires begin <= end <= |v| && Rearranged(v, w, begin, end) && Permutes(v, lo, hi)
    requires hi <= begin || end <= lo || (lo == begin && hi == end)
    ensures Permutes(w, lo, hi)
  {
    if !(lo == begin && hi == end) {
      forall k
        ensures Tally(w, lo, hi, k) == Tally(v, lo, hi, k)
      {
        TallySame(v, w, lo, hi, k);
      }
    }
  }

  lemma RearrangedTransitive(u: seq<int>, v: seq<int>, w: seq<int>, begin: nat, end: nat)
    requires begin <= end <= |u| && Rearranged(u, v, begin, end) && Rearranged(v, w, begin, end)
    ensures Rearranged(u, w, begin, end)
  {
  }

  // ---------------------------------------------------------------------------
  // The shuffle
  // ---------------------------------------------------------------------------

  /** draws[k] picks one of the first width - k positions. */
  predicate DrawsFit(draws: seq<nat>, width: nat) {
    draws == [] || (draws[0] < width && DrawsFit(draws[1..], width - 1))
  }

  /** What the draws of a shuffle make of a range of the given width: each swaps the drawn
      position with the last one, and the range shrinks. */
  function Shuffled(v: seq<int>, begin: nat, width: nat, draws: seq<nat>): (w: seq<int>)
    requires begin + width <= |v| && DrawsFit(draws, width)
    ensures |w| == |v|
    decreases |draws|
  {
    if draws == [] then v
    else Shuffled(Swap(v, begin + draws[0], begin + width - 1), begin, width - 1, draws[1..])
  }

  /** A shuffle draws until the range has shrunk to one position. */
  predicate Complete(draws: seq<nat>, width: nat) {
    DrawsFit(draws, width) && |draws| == if width < 2 then 0 else width - 1
  }

  lemma WidenRearranged(v: seq<int>, w: seq<int>, begin: nat, end: nat)
    requires begin < end <= |v| && Rearranged(v, w, begin, end - 1)
    ensures Rearranged(v, w, begin, end)
  {
    var rest: nat := end - 1;
    forall x
      ensures Tally(w, begin, end, x) == Tally(v, begin, end, x)
    {
      assert Tally(w, begin, rest, x) == Tally(v, begin, rest, x);
    }
  }

  lemma {:induction false} ShuffledRearranges(v: seq<int>, begin: nat, width: nat, draws: seq<nat>)
    requires begin + width <= |v| && DrawsFit(draws, width)
    ensures Rearranged(v, Shuffled(v, begin, width, draws), begin, begin + width)
    decreases |draws|
  {
    if draws != [] {
      var u := Swap(v, begin + draws[0], begin + width - 1);
      var w := Shuffled(v, begin, width, draws);
      SwapRearranges(v, begin, begin + width, begin + draws[0], begin + width - 1);
      ShuffledRearranges(u, begin, width - 1, draws[1..]);
      WidenRearranged(u, w, begin, begin + width);
      RearrangedTransitive(v, u, w, begin, begin + width);
    }
  }

  /** What Generate returns for a state and a range. */
  function Draw(state: nat, range: nat): (r: nat)
    requires range > 0
    ensures r < range && (NextState(state) - r) % range == 0
  {
    ModMinus(NextState(state), range);
    NextState(state) % range
  }

  lemma ModMinus(n: nat, d: nat)
    requires d > 0
    ensures (n - n % d) % d == 0
  {
    assert n - n % d == n / d * d;
    MultipleMod(n / d, d);
  }

  /** The generator goes through every state: each number below 2^31 follows some state. */
  lemma StateBefore(next: nat) returns (state: nat)
    requires next < MAX_RANGE
    ensures state < MAX_RANGE && NextState(state) == next
  {
    var x := 1857678181 * (next - 12345);
    var q := x / MAX_RANGE;
    state := x % MAX_RANGE;
    assert 1103515245 * state + 12345 == next + MAX_RANGE * (954594553 * (next - 12345) - 1103515245 * q);
    ModShift(next, 954594553 * (next - 12345) - 1103515245 * q);
  }

  lemma ModShift(n: nat, k: int)
    requires n < MAX_RANGE
    ensures (n + MAX_RANGE * k) % MAX_RANGE == n
  {
  }

  /** Every number below the range is drawn from some state. */
  lemma EveryNumberDrawn(range: nat, r: nat) returns (state: nat)
    requires r < range <= MAX_RANGE
    ensures Draw(state, range) == r
  {
    state := StateBefore(r);
    DivModUnique(r, range, 0, r);
  }

  /** The draws of a shuffle that finds the generator in the given state. */
  function DrawsFrom(state: nat, width: nat): (draws: seq<nat>)
    ensures Complete(draws, width)
    decreases width
  {
    if width < 2 then [] else [Draw(state, width)] + DrawsFrom(NextState(state), width - 1)
  }

  /** The state after the draws of a shuffle: one step for each. */
  function StateAfter(state: nat, width: nat): nat
    decreases width
  {
    if width < 2 then state else StateAfter(NextState(state), width - 1)
  }

  /** The range shuffled by a generator in the given state. */
  function ShuffledFrom(v: seq<int>, begin: nat, end: nat, state: nat): (w: seq<int>)
    requires begin <= end <= |v|
    ensures |w| == |v|
  {
    Shuffled(v, begin, end - begin, DrawsFrom(state, end - begin))
  }

  /** One draw and one swap take the shuffle one position further. */
  lemma {:induction false} ShuffleStep(v: seq<int>, begin: nat, end: nat, state: nat)
    requires begin + 2 <= end <= |v|
    ensures ShuffledFrom(v, begin, end, state)
         == ShuffledFrom(Swap(v, begin + Draw(state, end - begin), end - 1), begin, end - 1, NextState(state))
    ensures StateAfter(state, end - begin) == StateAfter(NextState(state), end - 1 - begin)
  {
    var draws := DrawsFrom(state, end - begin);
    assert draws[0] == Draw(state, end - begin) && draws[1..] == DrawsFrom(NextState(state), end - 1 - begin);
  }

  /** Fisher-Yates on a range of the vector. */
  method ShuffleRange(random: Random, begin: nat, end: nat, v: seq<int>) returns (w: seq<int>)
    requires begin <= end <= |v| <= MAX_RANGE
    modifies random
    ensures w == ShuffledFrom(v, begin, end, old(random.state))
    ensures random.state == StateAfter(old(random.state), end - begin)
    ensures Rearranged(v, w, begin, end)
  {
    w := v;
    var width := end - begin;
    ghost var result, final := ShuffledFrom(v, begin, end, random.state), StateAfter(random.state, width);
    ShuffledRearranges(v, begin, width, DrawsFrom(random.state, width));
    while width >= 2
      invariant 0 <= width <= end - begin && |w| == |v|
      invariant result == ShuffledFrom(w, begin, begin + width, random.state)
      invariant final == StateAfter(random.state, width)
    {
      ShuffleStep(w, begin, begin + width, random.state);
      var last := begin + width - 1;
      var choice := random.Generate(width);
      var selected := begin + choice;
      w := Swap(w, selected, last);
      width := width - 1;
    }
  }

  /** With the right element swapped into the last place, the rest is still a rearrangement. */
  lemma NarrowerRearrangement(v: seq<int>, w: seq<int>, begin: nat, end: nat, s: nat)
    requires begin <= s < end <= |v| && Rearranged(v, w, begin, end) && v[s] == w[end - 1]
    ensures Rearranged(Swap(v, s, end - 1), w, begin, end - 1)
  {
    var u := Swap(v, s, end - 1);
    SwapRearranges(v, begin, end, s, end - 1);
    var rest: nat := end - 1;
    forall x
      ensures Tally(w, begin, rest, x) == Tally(u, begin, rest, x)
    {
      assert Tally(w, begin, end, x) == Tally(v, begin, end, x) == Tally(u, begin, end, x);
    }
  }

  /** A range of at most one position cannot be rearranged. */
  lemma NarrowRangeFixed(v: seq<int>, w: seq<int>, begin: nat, end: nat)
    requires begin <= end <= |v| && end - begin < 2 && Rearranged(v, w, begin, end)
    ensures w == v
  {
    if begin < end {
      TallyCounts(w, begin, end, begin);
      var i := TallyFinds(v, begin, end, w[begin]);
      assert i == begin;
    }
  }

  lemma LastComesFrom(v: seq<int>, w: seq<int>, begin: nat, end: nat) returns (s: nat)
    requires begin < end <= |v| && Rearranged(v, w, begin, end)
    ensures begin <= s < end && v[s] == w[end - 1]
  {
    TallyCounts(w, begin, end, end - 1);
    s := TallyFinds(v, begin, end, w[end - 1]);
  }

  /** Every order of the range is the outcome of some draws. */
  lemma {:induction false} EveryOrderPossible(v: seq<int>, w: seq<int>, begin: nat, end: nat) returns (draws: seq<nat>)
    requires begin <= end <= |v| && Rearranged(v, w, begin, end)
    ensures Complete(draws, end - begin) && Shuffled(v, begin, end - begin, draws) == w
    decreases end - begin
  {
    if end - begin < 2 {
      NarrowRangeFixed(v, w, begin, end);
      return [];
    }
    var s := LastComesFrom(v, w, begin, end);
    NarrowerRearrangement(v, w, begin, end, s);
    var rest := EveryOrderPossible(Swap(v, s, end - 1), w, begin, end - 1);
    draws := [s - begin] + rest;
    assert draws[1..] == rest;
  }

  // ---------------------------------------------------------------------------
  // Registered tests
  // ---------------------------------------------------------------------------

  datatype TestCase = TestCase(name: string, tests: seq<string>, indices: seq<int>) {
    ghost predicate Valid() {
      |indices| == |tests| <= MAX_RANGE && Permutes(indices, 0, |tests|)
    }
  }

  /** The same tests are registered in the same places; only the running order may differ. */
  ghost predicate SameTests(cases: seq<TestCase>, cases': seq<TestCase>) {
    && |cases'| == |cases|
    && forall i | 0 <= i < |cases| :: cases'[i].name == cases[i].name && cases'[i].tests == cases[i].tests
  }

  ghost predicate IsDeath(filter: string, c: TestCase) {
    TestFilter.FilterDenotes(filter, c.name)
  }

  /** The death test cases are the first ones, up to position `last`. */
  ghost predicate DeathFirst(filter: string, cases: seq<TestCase>, last: int) {
    -1 <= last < |cases| && forall i | 0 <= i < |cases| :: i <= last <==> IsDeath(filter, cases[i])
  }

  ghost predicate WellFormed(cases: seq<TestCase>) {
    && |cases| <= MAX_RANGE
    && (forall i | 0 <= i < |cases| :: cases[i].Valid())
    && (forall i, j | 0 <= i < j < |cases| :: cases[i].name != cases[j].name)
  }

  function Ints(lo: int, hi: int): (s: seq<int>)
    requires lo <= hi
    ensures |s| == hi - lo
    ensures forall i | 0 <= i < hi - lo :: s[i] == lo + i
  {
    seq(hi - lo, i => lo + i)
  }

  /** Runs tests in the order of registration. */
  ghost predicate InOrder(c: TestCase) {
    c.indices == Ints(0, |c.indices|)
  }

  function Insert(cases: seq<TestCase>, at: nat, c: TestCase): seq<TestCase>
    requires at <= |cases|
  {
    cases[..at] + [c] + cases[at..]
  }

  lemma InsertAt(cases: seq<TestCase>, at: nat, c: TestCase, i: nat)
    requires at <= |cases| && i <= |cases|
    ensures Insert(cases, at, c)[i] == if i < at then cases[i] else if i == at then c else cases[i - 1]
  {
  }

  lemma InsertWellFormed(cases: seq<TestCase>, at: nat, c: TestCase)
    requires WellFormed(cases) && at <= |cases| < MAX_RANGE && c.Valid()
    requires forall i | 0 <= i < |cases| :: cases[i].name != c.name
    ensures WellFormed(Insert(cases, at, c))
  {
    var all := Insert(cases, at, c);
    forall i | 0 <= i < |all|
      ensures all[i].Valid()
    {
      InsertAt(cases, at, c, i);
    }
    forall i, j | 0 <= i < j < |all|
      ensures all[i].name != all[j].name
    {
      InsertAt(cases, at, c, i);
      InsertAt(cases, at, c, j);
    }
  }

  lemma InsertDeathFirst(filter: string, cases: seq<TestCase>, last: int, c: TestCase)
    requires DeathFirst(filter, cases, last)
    ensures IsDeath(filter, c) ==> DeathFirst(filter, Insert(cases, last + 1, c), last + 1)
    ensures !IsDeath(filter, c) ==> DeathFirst(filter, Insert(cases, |cases|, c), last)
  {
    var at := if IsDeath(filter, c) then last + 1 else |cases|;
    var all, last' := Insert(cases, at, c), if IsDeath(filter, c) then last + 1 else last;
    forall i | 0 <= i < |all|
      ensures i <= last' <==> IsDeath(filter, all[i])
    {
      InsertAt(cases, at, c, i);
    }
  }

  lemma InsertInOrder(cases: seq<TestCase>, at: nat, c: TestCase)
    requires at <= |cases| && InOrder(c) && forall i | 0 <= i < |cases| :: InOrder(cases[i])
    ensures forall i | 0 <= i <= |cases| :: InOrder(Insert(cases, at, c)[i])
  {
    forall i | 0 <= i <= |cases|
      ensures InOrder(Insert(cases, at, c)[i])
    {
      InsertAt(cases, at, c, i);
    }
  }

  lemma SameTestsKeep(filter: string, cases: seq<TestCase>, cases': seq<TestCase>, last: int)
    requires SameTests(cases, cases') && DeathFirst(filter, cases, last) && WellFormed(cases)
    requires forall i | 0 <= i < |cases'| :: cases'[i].Valid()
    ensures DeathFirst(filter, cases', last) && WellFormed(cases')
  {
    forall i | 0 <= i < |cases'|
      ensures i <= last <==> IsDeath(filter, cases'[i])
    {
      assert i <= last <==> IsDeath(filter, cases[i]);
    }
  }

  /** The generator's state when the shuffling gets to test case number i. */
  function StateAt(cases: seq<TestCase>, state: nat, i: nat): nat
    requires i <= |cases|
  {
    if i == 0 then state else StateAfter(StateAt(cases, state, i - 1), |cases[i - 1].indices|)
  }

  /** The test case with its tests shuffled by a generator in the given state. */
  function CaseShuffled(c: TestCase, state: nat): TestCase {
    c.(indices := ShuffledFrom(c.indices, 0, |c.indices|, state))
  }

  /** c is test case number i, shuffled by the generator that the earlier ones have left behind. */
  ghost predicate ShuffledAt(cases: seq<TestCase>, c: TestCase, state: nat, i: nat)
    requires i < |cases|
  {
    c == CaseShuffled(cases[i], StateAt(cases, state, i))
  }

  ghost predicate AllShuffled(cases: seq<TestCase>, cases': seq<TestCase>, state: nat) {
    |cases'| == |cases| && forall i | 0 <= i < |cases| :: ShuffledAt(cases, cases'[i], state, i)
  }

  lemma {:induction false} AllShuffledSameTests(cases: seq<TestCase>, cases': seq<TestCase>, state: nat)
    requires AllShuffled(cases, cases', state)
    ensures SameTests(cases, cases')
  {
    forall i | 0 <= i < |cases|
      ensures cases'[i].name == cases[i].name && cases'[i].tests == cases[i].tests
    {
      assert ShuffledAt(cases, cases'[i], state, i);
    }
  }

  /** Shuffles the tests of one test case. */
  method ShuffleCase(random: Random, c: TestCase) returns (c': TestCase)
    requires c.Valid()
    modifies random
    ensures c' == CaseShuffled(c, old(random.state)) && c'.Valid()
    ensures random.state == StateAfter(old(random.state), |c.indices|)
  {
    var indices := ShuffleRange(random, 0, |c.indices|, c.indices);
    RearrangedPermutes(c.indices, indices, 0, |c.indices|, 0, |c.tests|);
    c' := c.(indices := indices);
  }

  /** Shuffles the tests inside each test case, one test case after the other. */
  method ShuffleCases(random: Random, cases: seq<TestCase>) returns (cases': seq<TestCase>)
    requires forall i | 0 <= i < |cases| :: cases[i].Valid()
    modifies random
    ensures AllShuffled(cases, cases', old(random.state))
    ensures forall i | 0 <= i < |cases'| :: cases'[i].Valid()
    ensures random.state == StateAt(cases, old(random.state), |cases|)
  {
    cases' := [];
    for i := 0 to |cases|
      invariant |cases'| == i && random.state == StateAt(cases, old(random.state), i)
      invariant forall k | 0 <= k < i :: cases'[k].Valid()
      invariant forall k | 0 <= k < i :: ShuffledAt(cases, cases'[k], old(random.state), k)
    {
      var c := ShuffleCase(random, cases[i]);
      cases' := cases' + [c];
    }
  }

  /** The order of the test cases after a shuffle: first the death test cases, then the others. */
  function OrderShuffled(order: seq<int>, middle: nat, state: nat): (order': seq<int>)
    requires middle <= |order|
    ensures |order'| == |order|
  {
    ShuffledFrom(ShuffledFrom(order, 0, middle, state), middle, |order|, StateAfter(state, middle))
  }

  /** The generator's state once the order of the test cases has been shuffled. */
  function StateAfterOrder(count: nat, middle: nat, state: nat): nat
    requires middle <= count
  {
    StateAfter(StateAfter(state, middle), count - middle)
  }

  /** Shuffles the death test cases, then the other test cases. */
  method ShuffleOrder(random: Random, order: seq<int>, middle: nat) returns (order': seq<int>)
    requires middle <= |order| <= MAX_RANGE
    requires Permutes(order, 0, middle) && Permutes(order, middle, |order|)
    modifies random
    ensures order' == OrderShuffled(order, middle, old(random.state))
    ensures Permutes(order', 0, middle) && Permutes(order', middle, |order|)
    ensures random.state == StateAfterOrder(|order|, middle, old(random.state))
  {
    var once := ShuffleRange(random, 0, middle, order);
    RearrangedPermutes(order, once, 0, middle, 0, middle);
    RearrangedPermutes(order, once, 0, middle, middle, |order|);
    order' := ShuffleRange(random, middle, |order|, once);
    RearrangedPermutes(once, order', middle, |order|, 0, middle);
    RearrangedPermutes(once, order', middle, |order|, middle, |order|);
  }

  class UnitTestImpl {
    const deathTestCaseFilter: string  // kDeathTestCaseFilter in the source
    const random: Random
    var testCases: seq<TestCase>
    var testCaseIndices: seq<int>
    var lastDeathTestCase: int

    /** The death test cases come first, in the list and in the running order. */
    ghost predicate Valid()
      reads this
    {
      && DeathFirst(deathTestCaseFilter, testCases, lastDeathTestCase)
      && WellFormed(testCases)
      && |testCaseIndices| == |testCases|
      && Permutes(testCaseIndices, 0, lastDeathTestCase + 1)
      && Permutes(testCaseIndices, lastDeathTestCase + 1, |testCases|)
    }

    /** Everything runs in the order of registration. */
    ghost predicate Unshuffled()
      reads this
    {
      && (forall i | 0 <= i < |testCaseIndices| :: testCaseIndices[i] == i)
      && (forall i | 0 <= i < |testCases| :: InOrder(testCases[i]))
    }

    constructor (deathTestCaseFilter: string, random: Random)
      ensures this.deathTestCaseFilter == deathTestCaseFilter && this.random == random
      ensures Valid() && Unshuffled() && testCases == []
    {
      this.deathTestCaseFilter, this.random := deathTestCaseFilter, random;
      testCases, testCaseIndices, lastDeathTestCase := [], [], -1;
    }

    /** A new death test case goes behind the last one so far, any other to the end. */
    ghost function NewPlace(name: string, cases: seq<TestCase>, last: int): int {
      if TestFilter.FilterDenotes(deathTestCaseFilter, name) then last + 1 else |cases|
    }

    /** Finds the test case of the given name. */
    method FindTestCase(name: string) returns (index: nat)
      ensures index <= |testCases|
      ensures index < |testCases| ==> testCases[index].name == name
      ensures index == |testCases| ==> forall i | 0 <= i < |testCases| :: testCases[i].name != name
    {
      index := 0;
      while index < |testCases| && testCases[index].name != name
        invariant 0 <= index <= |testCases|
        invariant forall i | 0 <= i < index :: testCases[i].name != name
      {
        index := index + 1;
      }
    }

    /** The list with a new test case in it: a death test case goes behind the last one so far,
        any other to the end. */
    method Place(c: TestCase) returns (index: nat, cases: seq<TestCase>, last: int)
      requires DeathFirst(deathTestCaseFilter, testCases, lastDeathTestCase)
      requires WellFormed(testCases) && |testCases| < MAX_RANGE && c.Valid()
      requires forall i | 0 <= i < |testCases| :: testCases[i].name != c.name
      ensures index == (if IsDeath(deathTestCaseFilter, c) then lastDeathTestCase + 1 else |testCases|)
      ensures index <= |testCases| && cases == Insert(testCases, index, c)
      ensures |cases| == |testCases| + 1 && cases[index] == c
      ensures DeathFirst(deathTestCaseFilter, cases, last) && WellFormed(cases)
    {
      InsertDeathFirst(deathTestCaseFilter, testCases, lastDeathTestCase, c);
      var isDeath := TestFilter.MatchesFilter(c.name, deathTestCaseFilter);
      if isDeath {
        last := lastDeathTestCase + 1;
        index := last;
      } else {
        last := lastDeathTestCase;
        index := |testCases|;
      }
      InsertWellFormed(testCases, index, c);
      InsertAt(testCases, index, c, index);
      cases := Insert(testCases, index, c);
    }

    method InsertNew(name: string) returns (index: nat)
      requires Valid() && Unshuffled() && |testCases| < MAX_RANGE
      requires forall i | 0 <= i < |testCases| :: testCases[i].name != name
      modifies this`testCases, this`testCaseIndices, this`lastDeathTestCase
      ensures Valid() && Unshuffled()
      ensures index == NewPlace(name, old(testCases), old(lastDeathTestCase)) <= |old(testCases)|
      ensures testCases == Insert(old(testCases), index, TestCase(name, [], []))
      ensures testCases[index].name == name
    {
      var c := TestCase(name, [], []);
      IdentityPermutes([], 0, 0);
      var cases, last;
      index, cases, last := Place(c);
      InsertInOrder(testCases, index, c);
      testCases, lastDeathTestCase := cases, last;
      testCaseIndices := testCaseIndices + [|testCaseIndices|];
      IdentityPermutes(testCaseIndices, 0, lastDeathTestCase + 1);
      IdentityPermutes(testCaseIndices, lastDeathTestCase + 1, |testCases|);
    }

    /** Finds or creates the test case. */
    method GetTestCase(name: string) returns (index: nat, isNew: bool)
      requires Valid() && Unshuffled() && |testCases| < MAX_RANGE
      modifies this`testCases, this`testCaseIndices, this`lastDeathTestCase
      ensures Valid() && Unshuffled()
      ensures index < |testCases| && testCases[index].name == name
      ensures isNew <==> forall i | 0 <= i < |old(testCases)| :: old(testCases)[i].name != name
      ensures if isNew then
                && index == NewPlace(name, old(testCases), old(lastDeathTestCase)) <= |old(testCases)|
                && testCases == Insert(old(testCases), index, TestCase(name, [], []))
              else testCases == old(testCases)
    {
      index := FindTestCase(name);
      isNew := index == |testCases|;
      if !isNew {
        return;
      }
      index := InsertNew(name);
    }

    method AddTestInfo(index: nat, test: string)
      requires Valid() && Unshuffled() && index < |testCases| && |testCases[index].tests| < MAX_RANGE
      modifies this`testCases
      ensures Valid() && Unshuffled()
      ensures |testCases| == |old(testCases)|
      ensures testCases[index].name == old(testCases[index].name)
      ensures testCases[index].tests == old(testCases[index].tests) + [test]
      ensures forall i | 0 <= i < |testCases| && i != index :: testCases[i] == old(testCases)[i]
    {
      var c := testCases[index];
      var c' := TestCase(c.name, c.tests + [test], c.indices + [|c.indices|]);
      IdentityPermutes(c'.indices, 0, |c'.tests|);
      RenameNothing(deathTestCaseFilter, testCases, index, c', lastDeathTestCase);
      testCases := testCases[index := c'];
    }

    /** Shuffles the death test cases, the other test cases, and the tests inside each, with the
        generator's next numbers. */
    method ShuffleTests()
      requires Valid()
      modifies this`testCases, this`testCaseIndices, random
      ensures Valid()
      ensures SameTests(old(testCases), testCases)
      ensures testCaseIndices == OrderShuffled(old(testCaseIndices), lastDeathTestCase + 1, old(random.state))
      ensures var state := StateAfterOrder(|testCases|, lastDeathTestCase + 1, old(random.state));
              && AllShuffled(old(testCases), testCases, state)
              && random.state == StateAt(old(testCases), state, |testCases|)
    {
      var order := ShuffleOrder(random, testCaseIndices, lastDeathTestCase + 1);
      ghost var state := random.state;
      var cases := ShuffleCases(random, testCases);
      AllShuffledSameTests(testCases, cases, state);
      SameTestsKeep(deathTestCaseFilter, testCases, cases, lastDeathTestCase);
      testCases, testCaseIndices := cases, order;
    }

    /** Restores the order of registration. */
    method UnshuffleTests()
      requires Valid()
      modifies this`testCases, this`testCaseIndices
      ensures Valid() && Unshuffled()
      ensures SameTests(old(testCases), testCases)
    {
      for i := 0 to |testCases|
        invariant SameTests(old(testCases), testCases) && |testCaseIndices| == |testCases|
        invariant forall k | 0 <= k < |testCases| :: testCases[k].Valid()
        invariant forall k | 0 <= k < i :: testCaseIndices[k] == k
        invariant forall k | 0 <= k < i :: InOrder(testCases[k])
      {
        var c := testCases[i];
        IdentityPermutes(Ints(0, |c.indices|), 0, |c.tests|);
        testCases := testCases[i := c.(indices := Ints(0, |c.indices|))];
        testCaseIndices := testCaseIndices[i := i];
      }
      SameTestsKeep(deathTestCaseFilter, old(testCases), testCases, lastDeathTestCase);
      IdentityPermutes(testCaseIndices, 0, lastDeathTestCase + 1);
      IdentityPermutes(testCaseIndices, lastDeathTestCase + 1, |testCases|);
    }

    /** Runs everything in the current order and logs the tests as (test case, test) pairs. */
    method RunTests() returns (log: seq<(int, int)>)
      requires Valid()
      ensures OrderValid(testCases, testCaseIndices, lastDeathTestCase)
      ensures forall i | 0 <= i < |testCaseIndices| :: 0 <= testCaseIndices[i] < |testCases|
      ensures log == RunOrder(testCases, testCaseIndices, |testCaseIndices|)
    {
      OrderInRange(testCases, testCaseIndices, lastDeathTestCase);
      log := RunInOrder(testCases, testCaseIndices);
    }
  }

  method RunInOrder(cases: seq<TestCase>, order: seq<int>) returns (log: seq<(int, int)>)
    requires forall i | 0 <= i < |order| :: 0 <= order[i] < |cases|
    ensures log == RunOrder(cases, order, |order|)
  {
    log := [];
    for i := 0 to |order|
      invariant log == RunOrder(cases, order, i)
    {
      var runs := RunCase(order[i], cases[order[i]]);
      log := log + runs;
    }
  }

  /** Runs the tests of one test case in their current order. */
  method RunCase(k: int, c: TestCase) returns (log: seq<(int, int)>)
    ensures log == CaseRuns(k, c.indices, |c.indices|)
  {
    log := [];
    for j := 0 to |c.indices|
      invariant log == CaseRuns(k, c.indices, j)
    {
      log := log + [(k, c.indices[j])];
    }
  }

  lemma RenameNothing(filter: string, cases: seq<TestCase>, index: nat, c: TestCase, last: int)
    requires DeathFirst(filter, cases, last) && WellFormed(cases) && index < |cases|
    requires c.Valid() && c.name == cases[index].name
    ensures DeathFirst(filter, cases[index := c], last) && WellFormed(cases[index := c])
  {
    var cases' := cases[index := c];
    forall i | 0 <= i < |cases'|
      ensures i <= last <==> IsDeath(filter, cases'[i])
    {
      assert i <= last <==> IsDeath(filter, cases[i]);
    }
  }

  // ---------------------------------------------------------------------------
  // The running order
  // ---------------------------------------------------------------------------

  /** The first n tests that test case number k runs, as (test case, test) pairs. */
  function CaseRuns(k: int, indices: seq<int>, n: nat): seq<(int, int)>
    requires n <= |indices|
  {
    if n == 0 then [] else CaseRuns(k, indices, n - 1) + [(k, indices[n - 1])]
  }

  /** The tests that the first n test cases in running order run. */
  function RunOrder(cases: seq<TestCase>, order: seq<int>, n: nat): seq<(int, int)>
    requires n <= |order| && forall i | 0 <= i < |order| :: 0 <= order[i] < |cases|
  {
    if n == 0 then []
    else
      var c := cases[order[n - 1]];
      RunOrder(cases, order, n - 1) + CaseRuns(order[n - 1], c.indices, |c.indices|)
  }

  /** How often x occurs in the whole sequence. */
  function Occurrences<T(==)>(s: seq<T>, x: T): nat {
    Tally(s, 0, |s|, x)
  }

  lemma {:induction false} OccurrencesConcat<T>(a: seq<T>, b: seq<T>, x: T)
    ensures Occurrences(a + b, x) == Occurrences(a, x) + Occurrences(b, x)
    decreases |b|
  {
    if b == [] {
      assert a + b == a;
    } else {
      var n := |b| - 1;
      OccurrencesConcat(a, b[..n], x);
      TallySame(a + b[..n], a + b, 0, |a| + n, x);
      TallySame(b[..n], b, 0, n, x);
    }
  }

  lemma {:induction false} CaseRunsCount(k: int, indices: seq<int>, n: nat, c: int, t: int)
    requires n <= |indices|
    ensures Occurrences(CaseRuns(k, indices, n), (c, t)) == if c == k then Tally(indices, 0, n, t) else 0
  {
    if n > 0 {
      CaseRunsCount(k, indices, n - 1, c, t);
      var last := [(k, indices[n - 1])];
      OccurrencesConcat(CaseRuns(k, indices, n - 1), last, (c, t));
      assert Tally(last, 0, 0, (c, t)) == 0;
    }
  }

  lemma {:induction false} RunOrderCount(cases: seq<TestCase>, order: seq<int>, n: nat, c: nat, t: int)
    requires n <= |order| && forall i | 0 <= i < |order| :: 0 <= order[i] < |cases|
    requires c < |cases| && Tally(order, 0, n, c) <= 1
    ensures Occurrences(RunOrder(cases, order, n), (c, t))
         == if Tally(order, 0, n, c) == 1 then Occurrences(cases[c].indices, t) else 0
  {
    if n > 0 {
      var k := order[n - 1];
      var indices := cases[k].indices;
      RunOrderCount(cases, order, n - 1, c, t);
      OccurrencesConcat(RunOrder(cases, order, n - 1), CaseRuns(k, indices, |indices|), (c, t));
      CaseRunsCount(k, indices, |indices|, c, t);
    }
  }

  ghost predicate OrderValid(cases: seq<TestCase>, order: seq<int>, last: int) {
    && -1 <= last < |cases| == |order|
    && Permutes(order, 0, last + 1) && Permutes(order, last + 1, |cases|)
    && forall i | 0 <= i < |cases| :: cases[i].Valid()
  }

  lemma OrderInRange(cases: seq<TestCase>, order: seq<int>, last: int)
    requires OrderValid(cases, order, last)
    ensures forall i | 0 <= i < |order| :: 0 <= order[i] < |cases| && (i <= last <==> order[i] <= last)
  {
    forall i | 0 <= i < |order|
      ensures 0 <= order[i] < |cases| && (i <= last <==> order[i] <= last)
    {
      if i <= last {
        PermutesInRange(order, 0, last + 1, i);
      } else {
        PermutesInRange(order, last + 1, |cases|, i);
      }
    }
  }

  /** A valid order runs every registered test exactly once, and nothing else. */
  lemma RunsEachTestOnce(cases: seq<TestCase>, order: seq<int>, last: int, c: nat, t: int)
    requires OrderValid(cases, order, last) && c < |cases|
    ensures forall i | 0 <= i < |order| :: 0 <= order[i] < |cases|
    ensures Occurrences(RunOrder(cases, order, |order|), (c, t)) == if 0 <= t < |cases[c].tests| then 1 else 0
  {
    OrderInRange(cases, order, last);
    TallySplit(order, 0, last + 1, |order|, c);
    RunOrderCount(cases, order, |order|, c, t);
    assert cases[c].Valid();
  }

  lemma {:induction false} RunsOf(k: int, indices: seq<int>, n: nat)
    requires n <= |indices|
    ensures forall r | r in CaseRuns(k, indices, n) :: r.0 == k
  {
    if n > 0 {
      RunsOf(k, indices, n - 1);
    }
  }

  lemma {:induction false} FirstRunsAreDeath(cases: seq<TestCase>, order: seq<int>, last: int, n: nat)
    requires n <= last + 1 <= |order|
    requires forall i | 0 <= i < |order| :: 0 <= order[i] < |cases| && (i <= last <==> order[i] <= last)
    ensures forall r | r in RunOrder(cases, order, n) :: r.0 <= last
  {
    if n > 0 {
      FirstRunsAreDeath(cases, order, last, n - 1);
      var c := cases[order[n - 1]];
      RunsOf(order[n - 1], c.indices, |c.indices|);
    }
  }

  lemma {:induction false} LaterRunsAreNot(cases: seq<TestCase>, order: seq<int>, last: int, n: nat)
    requires -1 <= last && last + 1 <= n <= |order|
    requires forall i | 0 <= i < |order| :: 0 <= order[i] < |cases| && (i <= last <==> order[i] <= last)
    ensures RunOrder(cases, order, last + 1) <= RunOrder(cases, order, n)
    ensures forall i | |RunOrder(cases, order, last + 1)| <= i < |RunOrder(cases, order, n)| ::
              RunOrder(cases, order, n)[i].0 > last
  {
    if n > last + 1 {
      LaterRunsAreNot(cases, order, last, n - 1);
      var c := cases[order[n - 1]];
      RunsOf(order[n - 1], c.indices, |c.indices|);
    }
  }

  /** All death tests run before all other tests. */
  lemma DeathTestsRunFirst(cases: seq<TestCase>, order: seq<int>, last: int, a: nat, b: nat)
    requires OrderValid(cases, order, last)
    requires forall i | 0 <= i < |order| :: 0 <= order[i] < |cases|
    requires a < b < |RunOrder(cases, order, |order|)|
    ensures RunOrder(cases, order, |order|)[b].0 <= last ==> RunOrder(cases, order, |order|)[a].0 <= last
  {
    OrderInRange(cases, order, last);
    var runs, first := RunOrder(cases, order, |order|), RunOrder(cases, order, last + 1);
    FirstRunsAreDeath(cases, order, last, last + 1);
    LaterRunsAreNot(cases, order, last, |order|);
    if a < |first| {
      assert runs[a] == first[a] && first[a] in first;
    }
  }

  /** Where nothing is shuffled, test cases and tests run as they were registered. */
  lemma {:induction false} UnshuffledRunsInOrder(cases: seq<TestCase>, order: seq<int>, n: nat)
    requires n <= |order| == |cases| && forall i | 0 <= i < |order| :: order[i] == i
    requires forall i | 0 <= i < |cases| :: InOrder(cases[i])
    ensures forall a, b | 0 <= a < b < |RunOrder(cases, order, n)| ::
              var r, s := RunOrder(cases, order, n)[a], RunOrder(cases, order, n)[b];
              r.0 < s.0 || (r.0 == s.0 && r.1 < s.1)
    ensures forall r | r in RunOrder(cases, order, n) :: 0 <= r.0 < n
  {
    if n > 0 {
      UnshuffledRunsInOrder(cases, order, n - 1);
      CaseRunsInOrder(n - 1, cases[n - 1].indices, |cases[n - 1].indices|);
      RunsOf(n - 1, cases[n - 1].indices, |cases[n - 1].indices|);
    }
  }

  lemma {:induction false} CaseRunsInOrder(k: int, indices: seq<int>, n: nat)
    requires n <= |indices| && indices == Ints(0, |indices|)
    ensures |CaseRuns(k, indices, n)| == n
    ensures forall a | 0 <= a < n :: CaseRuns(k, indices, n)[a] == (k, a)
  {
    if n > 0 {
      CaseRunsInOrder(k, indices, n - 1);
    }
  }
}
