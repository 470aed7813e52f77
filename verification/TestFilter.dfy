/**
 Which tests Google Test selects: the glob matcher behind --gtest_filter, the filter flag
 with its negative part, and the distribution of the remaining tests over shards.

 The main results: the recursive glob matcher means what '?', '*' and ':' are documented to
 mean, every runnable test is selected on exactly one shard, and the shards get sizes that
 differ by at most one.
 */
module TestFilter {
  import opened Arithmetic
  import opened Options

  // ---------------------------------------------------------------------------
  // Globs
  // ---------------------------------------------------------------------------

  /** The pattern ends at its first ':' or at the end of the string. */
  predicate PatternMatchesString(pattern: string, str: string)
    decreases |pattern| + |str|
  {
    if pattern == "" || pattern[0] == ':' then str == ""
    else if pattern[0] == '?' then str != "" && PatternMatchesString(pattern[1..], str[1..])
    else if pattern[0] == '*' then
      (str != "" && PatternMatchesString(pattern, str[1..])) || PatternMatchesString(pattern[1..], str)
    else str != "" && pattern[0] == str[0] && PatternMatchesString(pattern[1..], str[1..])
  }

  /** The part of a filter before its first ':'. */
  function FirstPattern(filter: string): (p: string)
    ensures ':' !in p
  {
    if filter == "" || filter[0] == ':' then "" else [filter[0]] + FirstPattern(filter[1..])
  }

  function Flatten(pieces: seq<string>): string {
    if pieces == [] then "" else pieces[0] + Flatten(pieces[1..])
  }

  /** A piece of the name that one pattern character stands for. */
  predicate Stands(c: char, piece: string) {
    if c == '*' then true else if c == '?' then |piece| == 1 else piece == [c]
  }

  /** The name splits into one piece for each character of the glob. */
  ghost predicate Splits(glob: string, name: string, pieces: seq<string>) {
    && |pieces| == |glob|
    && Flatten(pieces) == name
    && forall i | 0 <= i < |glob| :: Stands(glob[i], pieces[i])
  }

  ghost predicate Denotes(glob: string, name: string) {
    exists pieces :: Splits(glob, name, pieces)
  }

  lemma {:induction false} MatcherIsSound(pattern: string, str: string) returns (pieces: seq<string>)
    requires PatternMatchesString(pattern, str)
    ensures Splits(FirstPattern(pattern), str, pieces)
    decreases |pattern| + |str|
  {
    if pattern == "" || pattern[0] == ':' {
      return [];
    }
    if pattern[0] == '*' {
      if PatternMatchesString(pattern[1..], str) {
        var rest := MatcherIsSound(pattern[1..], str);
        pieces := [""] + rest;
      } else {
        var rest := MatcherIsSound(pattern, str[1..]);
        var longer := [str[0]] + rest[0];
        pieces := [longer] + rest[1..];
        assert Flatten(pieces) == [str[0]] + Flatten(rest);
      }
    } else {
      var rest := MatcherIsSound(pattern[1..], str[1..]);
      pieces := [str[..1]] + rest;
      assert str == str[..1] + str[1..];
    }
  }

  lemma {:induction false} MatcherIsComplete(pattern: string, str: string, pieces: seq<string>)
    requires Splits(FirstPattern(pattern), str, pieces)
    ensures PatternMatchesString(pattern, str)
    decreases |pattern| + |str|
  {
    if pattern != "" && pattern[0] != ':' {
      var glob := FirstPattern(pattern);
      assert glob[0] == pattern[0] && glob[1..] == FirstPattern(pattern[1..]);
      assert Stands(glob[0], pieces[0]);
      var piece, rest := pieces[0], pieces[1..];
      if pattern[0] == '*' && piece != "" {
        var shorter := [piece[1..]] + rest;
        assert Flatten(shorter) == str[1..];
        MatcherIsComplete(pattern, str[1..], shorter);
      } else {
        assert Flatten(rest) == str[|piece|..];
        MatcherIsComplete(pattern[1..], str[|piece|..], rest);
      }
    }
  }

  /** The recursive matcher decides what the glob in front of the first ':' denotes. */
  lemma MatcherMeansGlob(pattern: string, str: string)
    ensures PatternMatchesString(pattern, str) <==> Denotes(FirstPattern(pattern), str)
  {
    if PatternMatchesString(pattern, str) {
      var pieces := MatcherIsSound(pattern, str);
    }
    if Denotes(FirstPattern(pattern), str) {
      var pieces :| Splits(FirstPattern(pattern), str, pieces);
      MatcherIsComplete(pattern, str, pieces);
    }
  }

  // ---------------------------------------------------------------------------
  // Filters
  // ---------------------------------------------------------------------------

  /** The patterns of a filter, separated by ':'. */
  function Patterns(filter: string): (ps: seq<string>)
    ensures |ps| >= 1
    decreases |filter|
  {
    var first := FirstPattern(filter);
    FirstPatternIsPrefix(filter);
    if |first| == |filter| then [first] else [first] + Patterns(filter[|first| + 1..])
  }

  lemma {:induction false} FirstPatternIsPrefix(filter: string)
    ensures |FirstPattern(filter)| <= |filter| && filter[..|FirstPattern(filter)|] == FirstPattern(filter)
    ensures |FirstPattern(filter)| < |filter| ==> filter[|FirstPattern(filter)|] == ':'
    decreases |filter|
  {
    if filter != "" && filter[0] != ':' {
      FirstPatternIsPrefix(filter[1..]);
    }
  }

  /** The patterns with ':' between them. */
  function Joined(ps: seq<string>): string {
    if ps == [] then "" else if |ps| == 1 then ps[0] else ps[0] + ":" + Joined(ps[1..])
  }

  /** A filter is its patterns with ':' between them, and no pattern contains one. */
  lemma {:induction false} PatternsExact(filter: string)
    ensures Joined(Patterns(filter)) == filter
    ensures forall i | 0 <= i < |Patterns(filter)| :: ':' !in Patterns(filter)[i]
    decreases |filter|
  {
    var first := FirstPattern(filter);
    FirstPatternIsPrefix(filter);
    if |first| < |filter| {
      var rest := filter[|first| + 1..];
      PatternsExact(rest);
      assert Patterns(filter) == [first] + Patterns(rest) && Patterns(filter)[1..] == Patterns(rest);
      assert filter == first + ":" + rest;
    }
  }

  /** Some pattern of the filter denotes the name. */
  ghost predicate FilterDenotes(filter: string, name: string) {
    exists i :: 0 <= i < |Patterns(filter)| && Denotes(Patterns(filter)[i], name)
  }

  /** strchr(s, ':') */
  method FindColon(s: string) returns (k: nat)
    ensures k == |FirstPattern(s)| && k <= |s|
  {
    k := 0;
    while k < |s| && s[k] != ':'
      invariant 0 <= k <= |s|
      invariant |FirstPattern(s)| == k + |FirstPattern(s[k..])|
    {
      assert s[k..][1..] == s[k + 1..];
      k := k + 1;
    }
  }

  /** Tries the patterns of the filter one after the other. */
  method MatchesFilter(name: string, filter: string) returns (matches: bool)
    ensures matches <==> FilterDenotes(filter, name)
  {
    var rest := filter;
    ghost var done := 0;
    while true
      invariant 0 <= done < |Patterns(filter)|
      invariant Patterns(filter)[done..] == Patterns(rest)
      invariant forall i | 0 <= i < done :: !Denotes(Patterns(filter)[i], name)
      decreases |rest|
    {
      assert Patterns(rest)[0] == FirstPattern(rest) == Patterns(filter)[done..][0] == Patterns(filter)[done];
      MatcherMeansGlob(rest, name);
      if PatternMatchesString(rest, name) {
        return true;
      }
      var colon := FindColon(rest);
      FirstPatternIsPrefix(rest);
      if colon == |rest| {
        assert |Patterns(rest)| == 1;
        return false;
      }
      assert Patterns(rest)[1..] == Patterns(rest[colon + 1..]);
      assert Patterns(filter)[done..][1..] == Patterns(filter)[done + 1..];
      rest := rest[colon + 1..];
      done := done + 1;
    }
  }

  /** The part of the flag before its first '-'. */
  function Positive(flag: string): (p: string)
    ensures |p| <= |flag|
  {
    if flag == "" || flag[0] == '-' then "" else [flag[0]] + Positive(flag[1..])
  }

  /** The longest prefix without '-'. */
  lemma {:induction false} PositiveExact(flag: string)
    ensures '-' !in Positive(flag) && flag[..|Positive(flag)|] == Positive(flag)
    ensures |Positive(flag)| < |flag| ==> flag[|Positive(flag)|] == '-'
    decreases |flag|
  {
    if flag != "" && flag[0] != '-' {
      PositiveExact(flag[1..]);
    }
  }

  /** What --gtest_filter means: one of the positive patterns and none of the negative ones;
      no positive pattern at all stands for every test. */
  ghost predicate FlagDenotes(flag: string, name: string) {
    var positive := Positive(flag);
    if |positive| == |flag| then FilterDenotes(flag, name)
    else
      && (positive == "" || FilterDenotes(positive, name))
      && !FilterDenotes(flag[|positive| + 1..], name)
  }

  /** strchr(s, '-') */
  method FindDash(s: string) returns (k: nat)
    ensures k == |Positive(s)| && k <= |s| && s[..k] == Positive(s)
  {
    k := 0;
    while k < |s| && s[k] != '-'
      invariant 0 <= k <= |s|
      invariant Positive(s) == s[..k] + Positive(s[k..])
    {
      assert s[k..][1..] == s[k + 1..];
      k := k + 1;
    }
  }

  lemma StarDenotesAll(name: string)
    ensures FilterDenotes("*", name)
  {
    var pieces := [name];
    assert pieces[1..] == [] && Flatten(pieces) == name;
    assert FirstPattern("*") == "*" by {
      assert "*"[1..] == "";
    }
    assert Splits("*", name, pieces);
    assert Patterns("*")[0] == "*";
  }

  lemma EmptyDenotesEmpty(name: string)
    ensures FilterDenotes("", name) ==> name == ""
  {
    assert Patterns("") == [""];
  }

  method FilterMatchesTest(testCaseName: string, testName: string, flag: string) returns (matches: bool)
    ensures matches <==> FlagDenotes(flag, testCaseName + "." + testName)
  {
    var fullName := testCaseName + "." + testName;
    var dash := FindDash(flag);
    var positive, negative := flag, "";
    if dash < |flag| {
      positive := flag[..dash];
      negative := flag[dash + 1..];
      if positive == "" {
        positive := "*";
      }
    }
    StarDenotesAll(fullName);
    EmptyDenotesEmpty(fullName);
    matches := MatchesFilter(fullName, positive);
    if matches {
      var excluded := MatchesFilter(fullName, negative);
      matches := !excluded;
    }
  }

  // ---------------------------------------------------------------------------
  // Selecting tests
  // ---------------------------------------------------------------------------

  datatype TestInfo = TestInfo(name: string, isDisabled: bool, matchesFilter: bool, shouldRun: bool)

  datatype TestCase = TestCase(name: string, tests: seq<TestInfo>, shouldRun: bool)

  /** The flags, and the filter for disabled tests (kDisableTestFilter in the source). */
  datatype Flags = Flags(filter: string, alsoRunDisabledTests: bool, disableFilter: string)

  /** One of several shards. */
  datatype Shard = Shard(total: nat, index: nat) {
    predicate Valid() {
      index < total
    }
  }

  predicate ShouldRunTestOnShard(shard: Shard, testId: nat)
    requires shard.Valid()
  {
    testId % shard.total == shard.index
  }

  ghost predicate Disabled(flags: Flags, testCaseName: string, testName: string) {
    FilterDenotes(flags.disableFilter, testCaseName) || FilterDenotes(flags.disableFilter, testName)
  }

  ghost predicate Runnable(flags: Flags, testCaseName: string, testName: string) {
    (flags.alsoRunDisabledTests || !Disabled(flags, testCaseName, testName))
    && FlagDenotes(flags.filter, testCaseName + "." + testName)
  }

  /** Runnable tests among the first n of a test case. */
  ghost function RunnableIn(flags: Flags, c: TestCase, n: nat): nat
    requires n <= |c.tests|
  {
    if n == 0 then 0
    else RunnableIn(flags, c, n - 1) + (if Runnable(flags, c.name, c.tests[n - 1].name) then 1 else 0)
  }

  /** Runnable tests of the first n test cases. */
  ghost function RunnableUpTo(flags: Flags, cases: seq<TestCase>, n: nat): nat
    requires n <= |cases|
  {
    if n == 0 then 0
    else RunnableUpTo(flags, cases, n - 1) + RunnableIn(flags, cases[n - 1], |cases[n - 1].tests|)
  }

  /** The number that test j of a case gets: the runnable tests before it, `base` of them in
      earlier test cases. */
  ghost predicate Selected(flags: Flags, c: TestCase, shard: Option<Shard>, base: nat, j: nat)
    requires j < |c.tests| && (shard.Some? ==> shard.value.Valid())
  {
    && Runnable(flags, c.name, c.tests[j].name)
    && (shard.None? || (base + RunnableIn(flags, c, j)) % shard.value.total == shard.value.index)
  }

  ghost function SelectedIn(flags: Flags, c: TestCase, shard: Option<Shard>, base: nat, n: nat): nat
    requires n <= |c.tests| && (shard.Some? ==> shard.value.Valid())
  {
    if n == 0 then 0
    else SelectedIn(flags, c, shard, base, n - 1) + (if Selected(flags, c, shard, base, n - 1) then 1 else 0)
  }

  /** The number of tests selected in the first n test cases. */
  ghost function SelectedUpTo(flags: Flags, cases: seq<TestCase>, shard: Option<Shard>, n: nat): nat
    requires n <= |cases| && (shard.Some? ==> shard.value.Valid())
  {
    if n == 0 then 0
    else
      var c := cases[n - 1];
      SelectedUpTo(flags, cases, shard, n - 1)
      + SelectedIn(flags, c, shard, RunnableUpTo(flags, cases, n - 1), |c.tests|)
  }

  /** The test case with its verdicts recorded. */
  ghost predicate Decided(flags: Flags, c: TestCase, shard: Option<Shard>, base: nat, c': TestCase)
    requires shard.Some? ==> shard.value.Valid()
  {
    && c'.name == c.name && |c'.tests| == |c.tests|
    && (forall j | 0 <= j < |c.tests| :: TestDecided(flags, c, shard, base, j, c'.tests[j]))
    && (c'.shouldRun <==> exists j :: 0 <= j < |c.tests| && Selected(flags, c, shard, base, j))
  }

  ghost predicate TestDecided(flags: Flags, c: TestCase, shard: Option<Shard>, base: nat, j: nat, t: TestInfo)
    requires j < |c.tests| && (shard.Some? ==> shard.value.Valid())
  {
    && t.name == c.tests[j].name
    && (t.isDisabled <==> Disabled(flags, c.name, t.name))
    && (t.matchesFilter <==> FlagDenotes(flags.filter, c.name + "." + t.name))
    && (t.shouldRun <==> Selected(flags, c, shard, base, j))
  }

  /** The verdict on one test; `runnable` is the number it gets if it is runnable. */
  method FilterTest(flags: Flags, c: TestCase, shard: Option<Shard>, ghost base: nat, runnable: nat, j: nat)
    returns (t: TestInfo, isRunnable: bool)
    requires j < |c.tests| && (shard.Some? ==> shard.value.Valid())
    requires runnable == base + RunnableIn(flags, c, j)
    ensures TestDecided(flags, c, shard, base, j, t)
    ensures isRunnable <==> Runnable(flags, c.name, c.tests[j].name)
  {
    var name := c.tests[j].name;
    var isDisabled := MatchesFilter(c.name, flags.disableFilter);
    if !isDisabled {
      isDisabled := MatchesFilter(name, flags.disableFilter);
    }
    var matchesFilter := FilterMatchesTest(c.name, name, flags.filter);
    isRunnable := (flags.alsoRunDisabledTests || !isDisabled) && matchesFilter;
    var isSelected := isRunnable && (shard.None? || ShouldRunTestOnShard(shard.value, runnable));
    t := TestInfo(name, isDisabled, matchesFilter, isSelected);
  }

  /** The inner loop, over the tests of one test case. */
  method FilterTestCase(flags: Flags, c: TestCase, shard: Option<Shard>, base: nat)
    returns (c': TestCase, runnable: nat, selected: nat)
    requires shard.Some? ==> shard.value.Valid()
    ensures Decided(flags, c, shard, base, c')
    ensures runnable == base + RunnableIn(flags, c, |c.tests|)
    ensures selected == SelectedIn(flags, c, shard, base, |c.tests|)
  {
    runnable, selected := base, 0;
    var tests, shouldRun := [], false;
    for j := 0 to |c.tests|
      invariant |tests| == j
      invariant forall k | 0 <= k < j :: TestDecided(flags, c, shard, base, k, tests[k])
      invariant shouldRun <==> exists k :: 0 <= k < j && Selected(flags, c, shard, base, k)
      invariant runnable == base + RunnableIn(flags, c, j)
      invariant selected == SelectedIn(flags, c, shard, base, j)
    {
      var t, isRunnable := FilterTest(flags, c, shard, base, runnable, j);
      runnable := runnable + (if isRunnable then 1 else 0);
      selected := selected + (if t.shouldRun then 1 else 0);
      tests := tests + [t];
      shouldRun := shouldRun || t.shouldRun;
    }
    c' := TestCase(c.name, tests, shouldRun);
  }

  /** The verdicts on the first n test cases. */
  ghost predicate AllDecided(flags: Flags, cases: seq<TestCase>, shard: Option<Shard>, cases': seq<TestCase>, n: nat)
    requires n <= |cases| && n <= |cases'| && (shard.Some? ==> shard.value.Valid())
  {
    n == 0 ||
    (&& AllDecided(flags, cases, shard, cases', n - 1)
     && Decided(flags, cases[n - 1], shard, RunnableUpTo(flags, cases, n - 1), cases'[n - 1]))
  }

  lemma {:induction false} DecidedStays(flags: Flags, cases: seq<TestCase>, shard: Option<Shard>,
                                        cases': seq<TestCase>, c: TestCase, n: nat)
    requires n <= |cases| && n <= |cases'| && (shard.Some? ==> shard.value.Valid())
    requires AllDecided(flags, cases, shard, cases', n)
    ensures AllDecided(flags, cases, shard, cases' + [c], n)
  {
    if n > 0 {
      DecidedStays(flags, cases, shard, cases', c, n - 1);
      assert (cases' + [c])[n - 1] == cases'[n - 1];
    }
  }

  /** Records in every test whether it should run on this shard. */
  method FilterTests(flags: Flags, cases: seq<TestCase>, shard: Option<Shard>)
    returns (cases': seq<TestCase>, selected: nat)
    requires shard.Some? ==> shard.value.Valid()
    ensures |cases'| == |cases|
    ensures AllDecided(flags, cases, shard, cases', |cases|)
    ensures selected == SelectedUpTo(flags, cases, shard, |cases|)
  {
    cases', selected := [], 0;
    var runnable := 0;
    for i := 0 to |cases|
      invariant |cases'| == i
      invariant runnable == RunnableUpTo(flags, cases, i)
      invariant AllDecided(flags, cases, shard, cases', i)
      invariant selected == SelectedUpTo(flags, cases, shard, i)
    {
      var c', n, s := FilterTestCase(flags, cases[i], shard, runnable);
      DecidedStays(flags, cases, shard, cases', c', i);
      cases' := cases' + [c'];
      runnable, selected := n, selected + s;
    }
  }

  // ---------------------------------------------------------------------------
  // All shards together
  // ---------------------------------------------------------------------------

  /** Every runnable test is selected on exactly one of the shards, and no other test on any. */
  lemma ExactlyOneShard(flags: Flags, cases: seq<TestCase>, total: nat, i: nat, j: nat)
    requires total >= 1 && i < |cases| && j < |cases[i].tests|
    ensures var base := RunnableUpTo(flags, cases, i);
            if Runnable(flags, cases[i].name, cases[i].tests[j].name) then
              exists index :: 0 <= index < total && Selected(flags, cases[i], Some(Shard(total, index)), base, j)
                && forall other | 0 <= other < total && other != index ::
                     !Selected(flags, cases[i], Some(Shard(total, other)), base, j)
            else
              forall index | 0 <= index < total :: !Selected(flags, cases[i], Some(Shard(total, index)), base, j)
  {
    var base := RunnableUpTo(flags, cases, i);
    if Runnable(flags, cases[i].name, cases[i].tests[j].name) {
      var index := (base + RunnableIn(flags, cases[i], j)) % total;
      assert Selected(flags, cases[i], Some(Shard(total, index)), base, j);
    }
  }

  /** Numbers below n that fall on the shard. */
  function Share(shard: Shard, n: nat): nat
    requires shard.Valid()
  {
    if n == 0 then 0 else Share(shard, n - 1) + (if ShouldRunTestOnShard(shard, n - 1) then 1 else 0)
  }

  lemma {:induction false} SelectedInIsShare(flags: Flags, c: TestCase, shard: Shard, base: nat, n: nat)
    requires n <= |c.tests| && shard.Valid()
    ensures Share(shard, base) + SelectedIn(flags, c, Some(shard), base, n)
         == Share(shard, base + RunnableIn(flags, c, n))
  {
    if n > 0 {
      SelectedInIsShare(flags, c, shard, base, n - 1);
    }
  }

  lemma {:induction false} SelectedUpToIsShare(flags: Flags, cases: seq<TestCase>, shard: Shard, n: nat)
    requires n <= |cases| && shard.Valid()
    ensures SelectedUpTo(flags, cases, Some(shard), n) == Share(shard, RunnableUpTo(flags, cases, n))
  {
    if n > 0 {
      SelectedUpToIsShare(flags, cases, shard, n - 1);
      var c := cases[n - 1];
      SelectedInIsShare(flags, c, shard, RunnableUpTo(flags, cases, n - 1), |c.tests|);
    }
  }

  lemma {:induction false} ShareSize(shard: Shard, n: nat)
    requires shard.Valid()
    ensures Share(shard, n) == n / shard.total + (if shard.index < n % shard.total then 1 else 0)
  {
    if n == 0 {
      DivModUnique(0, shard.total, 0, 0);
    } else {
      ShareSize(shard, n - 1);
      DivModNext(n - 1, shard.total);
    }
  }

  /** The runnable tests are spread evenly: a shard gets the quotient, and the first ones one
      test more. */
  lemma ShardsAreBalanced(flags: Flags, cases: seq<TestCase>, total: nat, i: nat, j: nat)
    requires i < total && j < total
    ensures var n := RunnableUpTo(flags, cases, |cases|);
            SelectedUpTo(flags, cases, Some(Shard(total, i)), |cases|) == n / total + (if i < n % total then 1 else 0)
    ensures SelectedUpTo(flags, cases, Some(Shard(total, i)), |cases|)
         <= SelectedUpTo(flags, cases, Some(Shard(total, j)), |cases|) + 1
  {
    var n := RunnableUpTo(flags, cases, |cases|);
    SelectedUpToIsShare(flags, cases, Shard(total, i), |cases|);
    SelectedUpToIsShare(flags, cases, Shard(total, j), |cases|);
    ShareSize(Shard(total, i), n);
    ShareSize(Shard(total, j), n);
  }
}
