/**
 Unified diffs: hunks of removed, added and common lines cut out of an edit script.

 A hunk is printed as a header and marked lines; here it stays a record of both. The main
 results: each hunk shows one span of the computed script, with every match as a common line
 in its place; with context, every change is in exactly one span, the spans have that many
 matches around them, and neighbouring changes share one exactly when their contexts overlap;
 and applying the hunks turns left into right (and, backwards, right into left) exactly when
 at least one line of context was asked for or there is nothing to do.
 */
module UnifiedDiff {
  import opened EditScript
  import opened Options

  /** A line of a hunk, marked ' ', '-' or '+'. */
  datatype Line = Line(mark: char, text: string)

  datatype Range = Range(start: nat, length: nat)

  /** The parts of "@@ -start,length +start,length @@" that are printed. */
  datatype Header = Header(left: Option<Range>, right: Option<Range>)

  datatype PrintedHunk = PrintedHunk(leftStart: nat, rightStart: nat, header: Header, lines: seq<Line>)

  /** The texts of the lines that do not carry the hidden mark. */
  function Seen(lines: seq<Line>, hidden: char): seq<string> {
    if lines == [] then []
    else
      var n := |lines| - 1;
      Seen(lines[..n], hidden) + (if lines[n].mark == hidden then [] else [lines[n].text])
  }

  /** The lines a reader of the old text sees. */
  function Old(lines: seq<Line>): seq<string> {
    Seen(lines, '+')
  }

  /** The lines a reader of the new text sees. */
  function New(lines: seq<Line>): seq<string> {
    Seen(lines, '-')
  }

  function Count(lines: seq<Line>, mark: char): nat {
    if lines == [] then 0
    else Count(lines[..|lines| - 1], mark) + (if lines[|lines| - 1].mark == mark then 1 else 0)
  }

  predicate AllMarked(lines: seq<Line>, mark: char) {
    forall i | 0 <= i < |lines| :: lines[i].mark == mark
  }

  predicate InGroup(lines: seq<Line>, i: nat)
    requires i + 1 < |lines|
  {
    lines[i].mark == '+' ==> lines[i + 1].mark != '-'
  }

  /** Removed lines come before added ones between any two common lines. */
  predicate Grouped(lines: seq<Line>) {
    forall i | 0 <= i < |lines| - 1 :: InGroup(lines, i)
  }

  predicate Marked(lines: seq<Line>) {
    forall i | 0 <= i < |lines| :: lines[i].mark in {' ', '-', '+'}
  }

  lemma {:induction false} AppendLast(s: seq<string>, a: seq<string>, x: seq<string>)
    ensures s + (a + x) == s + a + x
  {
  }

  lemma {:induction false} SeenConcat(a: seq<Line>, b: seq<Line>, hidden: char)
    ensures Seen(a + b, hidden) == Seen(a, hidden) + Seen(b, hidden)
    decreases |b|
  {
    if b == [] {
      assert a + b == a;
    } else {
      var n := |b| - 1;
      SeenConcat(a, b[..n], hidden);
      assert (a + b)[..|a + b| - 1] == a + b[..n];
      AppendLast(Seen(a, hidden), Seen(b[..n], hidden), if b[n].mark == hidden then [] else [b[n].text]);
    }
  }

  lemma {:induction false} CountConcat(a: seq<Line>, b: seq<Line>, mark: char)
    ensures Count(a + b, mark) == Count(a, mark) + Count(b, mark)
    decreases |b|
  {
    if b == [] {
      assert a + b == a;
    } else {
      var n := |b| - 1;
      CountConcat(a, b[..n], mark);
      assert (a + b)[..|a + b| - 1] == a + b[..n];
    }
  }

  lemma {:induction false} AllHidden(lines: seq<Line>, hidden: char)
    requires AllMarked(lines, hidden)
    ensures Seen(lines, hidden) == []
    decreases |lines|
  {
    if lines != [] {
      AllHidden(lines[..|lines| - 1], hidden);
    }
  }

  lemma {:induction false} LineCounts(lines: seq<Line>)
    requires Marked(lines)
    ensures |lines| == |Old(lines)| + Count(lines, '+')
    decreases |lines|
  {
    if lines != [] {
      LineCounts(lines[..|lines| - 1]);
    }
  }

  lemma {:induction false} OldNewSizes(lines: seq<Line>)
    requires Marked(lines)
    ensures |Old(lines)| == Count(lines, ' ') + Count(lines, '-')
    ensures |New(lines)| == Count(lines, ' ') + Count(lines, '+')
    decreases |lines|
  {
    if lines != [] {
      OldNewSizes(lines[..|lines| - 1]);
    }
  }

  // ---------------------------------------------------------------------------
  // One hunk
  // ---------------------------------------------------------------------------

  /** The state of a hunk under construction, as a value. */
  datatype Parts = Parts(done: seq<Line>, removes: seq<Line>, adds: seq<Line>) {
    function Lines(): seq<Line> {
      done + removes + adds
    }

    /** The number of lines with a mark. */
    function Tally(mark: char): nat {
      Count(done, mark) + (if mark == '-' then |removes| else if mark == '+' then |adds| else 0)
    }

    predicate Tidy() {
      && AllMarked(removes, '-') && AllMarked(adds, '+')
      && Grouped(done) && (done != [] ==> done[|done| - 1].mark == ' ')
      && Marked(done)
    }
  }

  /** Where a pushed line goes. */
  function Push(p: Parts, mark: char, text: string): Parts {
    match mark
    case ' ' => Parts(p.Lines() + [Line(' ', text)], [], [])
    case '-' => p.(removes := p.removes + [Line('-', text)])
    case '+' => p.(adds := p.adds + [Line('+', text)])
    case _ => p
  }

  lemma {:induction false} SeenParts(p: Parts, hidden: char)
    ensures Seen(p.Lines(), hidden) == Seen(p.done, hidden) + Seen(p.removes, hidden) + Seen(p.adds, hidden)
  {
    SeenConcat(p.done + p.removes, p.adds, hidden);
    SeenConcat(p.done, p.removes, hidden);
  }

  lemma {:induction false} CountParts(p: Parts, mark: char)
    ensures Count(p.Lines(), mark) == Count(p.done, mark) + Count(p.removes, mark) + Count(p.adds, mark)
  {
    CountConcat(p.done + p.removes, p.adds, mark);
    CountConcat(p.done, p.removes, mark);
  }

  lemma {:induction false} SeenSnoc(lines: seq<Line>, line: Line, hidden: char)
    ensures Seen(lines + [line], hidden) == Seen(lines, hidden) + (if line.mark == hidden then [] else [line.text])
  {
    assert (lines + [line])[..|lines|] == lines;
  }

  lemma {:induction false} PushEditMeaning(p: Parts, mark: char, text: string, hidden: char)
    requires p.Tidy() && mark in {'-', '+'} && hidden in {'-', '+'}
    ensures Seen(Push(p, mark, text).Lines(), hidden)
         == Seen(p.Lines(), hidden) + (if mark == hidden then [] else [text])
  {
    SeenParts(p, hidden);
    SeenParts(Push(p, mark, text), hidden);
    var d, r, a := Seen(p.done, hidden), Seen(p.removes, hidden), Seen(p.adds, hidden);
    var x := if mark == hidden then [] else [text];
    if mark == '+' {
      SeenSnoc(p.adds, Line(mark, text), hidden);
      AppendLast(d + r, a, x);
    } else {
      SeenSnoc(p.removes, Line(mark, text), hidden);
      if hidden == '+' {
        AllHidden(p.adds, hidden);
      }
      AppendMiddle(d, r, a, x);
    }
  }

  lemma {:induction false} AppendMiddle(d: seq<string>, r: seq<string>, a: seq<string>, x: seq<string>)
    requires a == [] || x == []
    ensures d + (r + x) + a == d + r + a + x
  {
  }

  /** Regrouping never changes what either reader sees. */
  lemma {:induction false} PushMeaning(p: Parts, mark: char, text: string, hidden: char)
    requires p.Tidy() && mark in {' ', '-', '+'} && hidden in {'-', '+'}
    ensures Seen(Push(p, mark, text).Lines(), hidden)
         == Seen(p.Lines(), hidden) + (if mark == hidden then [] else [text])
  {
    if mark == ' ' {
      assert Push(p, mark, text).Lines() == p.Lines() + [Line(' ', text)];
      SeenSnoc(p.Lines(), Line(' ', text), hidden);
    } else {
      PushEditMeaning(p, mark, text, hidden);
    }
  }

  lemma {:induction false} CountAll(lines: seq<Line>, mark: char, counted: char)
    requires AllMarked(lines, mark)
    ensures Count(lines, counted) == if mark == counted then |lines| else 0
    decreases |lines|
  {
    if lines != [] {
      CountAll(lines[..|lines| - 1], mark, counted);
    }
  }

  lemma {:induction false} TallyIsCount(p: Parts, counted: char)
    requires p.Tidy()
    ensures p.Tally(counted) == Count(p.Lines(), counted)
  {
    CountParts(p, counted);
    CountAll(p.removes, '-', counted);
    CountAll(p.adds, '+', counted);
  }

  lemma {:induction false} PushTally(p: Parts, mark: char, text: string, counted: char)
    requires p.Tidy() && mark in {' ', '-', '+'}
    ensures Push(p, mark, text).Tally(counted) == p.Tally(counted) + (if mark == counted then 1 else 0)
  {
    if mark == ' ' {
      TallyIsCount(p, counted);
      CountConcat(p.Lines(), [Line(' ', text)], counted);
    }
  }

  /** Spliced together, the parts are grouped. */
  lemma {:induction false} LinesGrouped(p: Parts)
    requires p.Tidy()
    ensures Grouped(p.Lines()) && Marked(p.Lines())
  {
    var lines := p.Lines();
    forall i | 0 <= i < |lines| - 1
      ensures InGroup(lines, i)
    {
      if i + 1 < |p.done| {
        assert InGroup(p.done, i);
      }
    }
  }

  lemma {:induction false} GroupedSnoc(lines: seq<Line>, line: Line)
    requires Grouped(lines) && line.mark != '-'
    ensures Grouped(lines + [line])
  {
    forall i | 0 <= i < |lines|
      ensures InGroup(lines + [line], i)
    {
      if i + 1 < |lines| {
        assert InGroup(lines, i);
      }
    }
  }

  lemma {:induction false} PushTidy(p: Parts, mark: char, text: string)
    requires p.Tidy() && mark in {' ', '-', '+'}
    ensures Push(p, mark, text).Tidy()
  {
    if mark == ' ' {
      LinesGrouped(p);
      GroupedSnoc(p.Lines(), Line(' ', text));
    }
  }

  class Hunk {
    var leftStart: nat
    var rightStart: nat
    var adds: nat
    var removes: nat
    var common: nat
    var hunk: seq<Line>
    var hunkAdds: seq<Line>
    var hunkRemoves: seq<Line>

    ghost function State(): Parts
      reads this
    {
      Parts(hunk, hunkRemoves, hunkAdds)
    }

    ghost predicate Valid()
      reads this
    {
      && State().Tidy()
      && adds == State().Tally('+')
      && removes == State().Tally('-')
      && common == State().Tally(' ')
    }

    predicate HasEdits()
      reads this
    {
      adds != 0 || removes != 0
    }

    constructor (leftStart: nat, rightStart: nat)
      ensures Valid() && !HasEdits()
      ensures this.leftStart == leftStart && this.rightStart == rightStart
      ensures State() == Parts([], [], [])
    {
      this.leftStart, this.rightStart := leftStart, rightStart;
      adds, removes, common := 0, 0, 0;
      hunk, hunkAdds, hunkRemoves := [], [], [];
    }

    method FlushEdits()
      modifies this`hunk, this`hunkAdds, this`hunkRemoves
      ensures State() == Parts(old(State().Lines()), [], [])
    {
      hunk := hunk + hunkRemoves;
      hunkRemoves := [];
      hunk := hunk + hunkAdds;
      hunkAdds := [];
    }

    /** Counts a line and puts it where it belongs. */
    method RouteLine(edit: char, line: string)
      requires edit in {' ', '-', '+'}
      modifies this
      ensures leftStart == old(leftStart) && rightStart == old(rightStart)
      ensures State() == Push(old(State()), edit, line)
      ensures common == old(common) + (if edit == ' ' then 1 else 0)
      ensures removes == old(removes) + (if edit == '-' then 1 else 0)
      ensures adds == old(adds) + (if edit == '+' then 1 else 0)
    {
      match edit {
        case ' ' =>
          common := common + 1;
          FlushEdits();
          hunk := hunk + [Line(' ', line)];
        case '-' =>
          removes := removes + 1;
          hunkRemoves := hunkRemoves + [Line('-', line)];
        case '+' =>
          adds := adds + 1;
          hunkAdds := hunkAdds + [Line('+', line)];
        case _ =>
      }
    }

    method PushLine(edit: char, line: string)
      requires Valid() && edit in {' ', '-', '+'}
      modifies this
      ensures Valid()
      ensures leftStart == old(leftStart) && rightStart == old(rightStart)
      ensures State() == Push(old(State()), edit, line)
      ensures removes == old(removes) + (if edit == '-' then 1 else 0)
      ensures adds == old(adds) + (if edit == '+' then 1 else 0)
    {
      ghost var before := State();
      RouteLine(edit, line);
      PushTidy(before, edit, line);
      PushTally(before, edit, line, ' ');
      PushTally(before, edit, line, '-');
      PushTally(before, edit, line, '+');
    }

    method PrintTo() returns (printed: PrintedHunk)
      requires Valid()
      modifies this
      ensures printed.leftStart == old(leftStart) && printed.rightStart == old(rightStart)
      ensures printed.lines == old(State().Lines())
      ensures Marked(printed.lines) && Grouped(printed.lines)
      ensures printed.header == HeaderOf(printed)
    {
      ghost var lines := State().Lines();
      LinesGrouped(State());
      TallyIsCount(State(), ' ');
      TallyIsCount(State(), '-');
      TallyIsCount(State(), '+');
      OldNewSizes(lines);
      var header := Header(if removes != 0 then Some(Range(leftStart, removes + common)) else None,
                           if adds != 0 then Some(Range(rightStart, adds + common)) else None);
      FlushEdits();
      printed := PrintedHunk(leftStart, rightStart, header, hunk);
    }
  }

  /** The header gives a side's range exactly when the hunk changes that side. */
  function HeaderOf(h: PrintedHunk): Header {
    Header(if Count(h.lines, '-') != 0 then Some(Range(h.leftStart, |Old(h.lines)|)) else None,
           if Count(h.lines, '+') != 0 then Some(Range(h.rightStart, |New(h.lines)|)) else None)
  }

  // ---------------------------------------------------------------------------
  // Positions in a script
  // ---------------------------------------------------------------------------

  /** Items of left consumed by the first k edits. */
  function LeftAt(edits: seq<Edit>, k: nat): nat
    requires k <= |edits|
  {
    if k == 0 then 0 else LeftAt(edits, k - 1) + (if edits[k - 1] != Add then 1 else 0)
  }

  /** Items of right produced by the first k edits. */
  function RightAt(edits: seq<Edit>, k: nat): nat
    requires k <= |edits|
  {
    if k == 0 then 0 else RightAt(edits, k - 1) + (if edits[k - 1] != Remove then 1 else 0)
  }

  /** Removing edits among the first k. */
  function RemovesAt(edits: seq<Edit>, k: nat): nat
    requires k <= |edits|
  {
    if k == 0 then 0
    else RemovesAt(edits, k - 1) + (if edits[k - 1] == Remove || edits[k - 1] == Replace then 1 else 0)
  }

  /** Adding edits among the first k. */
  function AddsAt(edits: seq<Edit>, k: nat): nat
    requires k <= |edits|
  {
    if k == 0 then 0
    else AddsAt(edits, k - 1) + (if edits[k - 1] == Add || edits[k - 1] == Replace then 1 else 0)
  }

  ghost predicate InPlace(edits: seq<Edit>, left: seq<string>, right: seq<string>, k: nat)
    requires k < |edits|
  {
    && (edits[k] != Add ==> LeftAt(edits, k) < |left|)
    && (edits[k] != Remove ==> RightAt(edits, k) < |right|)
    && (edits[k] == Match ==> left[LeftAt(edits, k)] == right[RightAt(edits, k)])
  }

  /** A script read from the front, with the positions it runs through. */
  ghost predicate Runs(edits: seq<Edit>, left: seq<string>, right: seq<string>) {
    && LeftAt(edits, |edits|) == |left|
    && RightAt(edits, |edits|) == |right|
    && forall k | 0 <= k < |edits| :: InPlace(edits, left, right, k)
  }

  lemma {:induction false} PrefixPositions(edits: seq<Edit>, n: nat, k: nat)
    requires k <= n <= |edits|
    ensures LeftAt(edits[..n], k) == LeftAt(edits, k)
    ensures RightAt(edits[..n], k) == RightAt(edits, k)
  {
    if k > 0 {
      PrefixPositions(edits, n, k - 1);
    }
  }

  lemma {:induction false} TransformsRuns(edits: seq<Edit>, left: seq<string>, right: seq<string>)
    requires Transforms(edits, left, right)
    ensures Runs(edits, left, right)
    decreases |edits|
  {
    if edits != [] {
      var n := |edits| - 1;
      var left' := if edits[n] == Add then left else left[..|left| - 1];
      var right' := if edits[n] == Remove then right else right[..|right| - 1];
      TransformsRuns(edits[..n], left', right');
      PrefixPositions(edits, n, n);
      forall k | 0 <= k < |edits|
        ensures InPlace(edits, left, right, k)
      {
        if k < n {
          PrefixPositions(edits, n, k);
          assert InPlace(edits[..n], left', right', k);
        }
      }
    }
  }

  lemma {:induction false} PositionsGrow(edits: seq<Edit>, left: seq<string>, right: seq<string>, k: nat)
    requires Runs(edits, left, right) && k <= |edits|
    ensures LeftAt(edits, k) <= |left| && RightAt(edits, k) <= |right|
    decreases |edits| - k
  {
    if k < |edits| {
      PositionsGrow(edits, left, right, k + 1);
    }
  }

  lemma {:induction false} MatchedPositions(edits: seq<Edit>, from: nat, end: nat)
    requires from <= end <= |edits| && forall k | from <= k < end :: edits[k] == Match
    ensures LeftAt(edits, end) == LeftAt(edits, from) + (end - from)
    ensures RightAt(edits, end) == RightAt(edits, from) + (end - from)
    decreases end
  {
    if from < end {
      MatchedPositions(edits, from, end - 1);
    }
  }

  /** Between two edits the texts agree. */
  lemma {:induction false} MatchedRun(edits: seq<Edit>, left: seq<string>, right: seq<string>, from: nat, end: nat)
    requires Runs(edits, left, right) && from <= end <= |edits|
    requires forall k | from <= k < end :: edits[k] == Match
    ensures LeftAt(edits, end) == LeftAt(edits, from) + (end - from) <= |left|
    ensures RightAt(edits, end) == RightAt(edits, from) + (end - from) <= |right|
    ensures left[LeftAt(edits, from)..LeftAt(edits, end)] == right[RightAt(edits, from)..RightAt(edits, end)]
    ensures RemovesAt(edits, end) == RemovesAt(edits, from) && AddsAt(edits, end) == AddsAt(edits, from)
    decreases end
  {
    PositionsGrow(edits, left, right, end);
    if from < end {
      MatchedRun(edits, left, right, from, end - 1);
      assert InPlace(edits, left, right, end - 1);
      var a, b, c, d := LeftAt(edits, from), LeftAt(edits, end - 1), RightAt(edits, from), RightAt(edits, end - 1);
      assert left[a..b + 1] == left[a..b] + [left[b]];
      assert right[c..d + 1] == right[c..d] + [right[d]];
    }
  }

  // ---------------------------------------------------------------------------
  // A list of hunks and what applying it does
  // ---------------------------------------------------------------------------

  // A side of the diff is named by the mark that its reader does not see: '+' for the old
  // text, '-' for the new one.

  function Other(hidden: char): char {
    if hidden == '+' then '-' else '+'
  }

  /** First line of the hunk on a side, counted from 0. */
  function Start(h: PrintedHunk, hidden: char): int {
    (if hidden == '+' then h.leftStart else h.rightStart) - 1
  }

  function End(hunks: seq<PrintedHunk>, hidden: char): int {
    if hunks == [] then 0
    else
      var h := hunks[|hunks| - 1];
      Start(h, hidden) + |Seen(h.lines, hidden)|
  }

  /** The hunk lies at or behind `from` and shows exactly what the text holds there. */
  predicate HunkFits(h: PrintedHunk, text: seq<string>, from: int, hidden: char) {
    && 0 <= from <= Start(h, hidden)
    && Start(h, hidden) + |Seen(h.lines, hidden)| <= |text|
    && Seen(h.lines, hidden) == text[Start(h, hidden)..Start(h, hidden) + |Seen(h.lines, hidden)|]
  }

  /** The hunks lie in the text one behind the other. */
  predicate Fits(hunks: seq<PrintedHunk>, text: seq<string>, hidden: char)
    ensures Fits(hunks, text, hidden) ==> 0 <= End(hunks, hidden) <= |text|
  {
    if hunks == [] then true
    else
      var n := |hunks| - 1;
      Fits(hunks[..n], text, hidden) && HunkFits(hunks[n], text, End(hunks[..n], hidden), hidden)
  }

  /** Replaces what one side shows by what the other side shows, up to the last hunk. */
  function PatchedUpTo(hunks: seq<PrintedHunk>, text: seq<string>, hidden: char): seq<string>
    requires Fits(hunks, text, hidden)
  {
    if hunks == [] then []
    else
      var n := |hunks| - 1;
      PatchedUpTo(hunks[..n], text, hidden)
      + text[End(hunks[..n], hidden)..Start(hunks[n], hidden)]
      + Seen(hunks[n].lines, Other(hidden))
  }

  /** Applies a diff: Patch(hunks, left, '+') is the new text, Patch(hunks, right, '-') the old. */
  function Patch(hunks: seq<PrintedHunk>, text: seq<string>, hidden: char): seq<string>
    requires Fits(hunks, text, hidden)
  {
    PatchedUpTo(hunks, text, hidden) + text[End(hunks, hidden)..]
  }

  /** The hunks fit both texts and leave out only what is the same on both sides. */
  predicate Agree(hunks: seq<PrintedHunk>, a: seq<string>, b: seq<string>, hidden: char)
    requires Fits(hunks, a, hidden) && Fits(hunks, b, Other(hidden))
  {
    if hunks == [] then true
    else
      var n := |hunks| - 1;
      && Agree(hunks[..n], a, b, hidden)
      && a[End(hunks[..n], hidden)..Start(hunks[n], hidden)]
         == b[End(hunks[..n], Other(hidden))..Start(hunks[n], Other(hidden))]
  }

  lemma {:induction false} AgreeSymmetric(hunks: seq<PrintedHunk>, a: seq<string>, b: seq<string>)
    requires Fits(hunks, a, '+') && Fits(hunks, b, '-')
    requires Agree(hunks, a, b, '+')
    ensures Agree(hunks, b, a, '-')
    decreases |hunks|
  {
    if hunks != [] {
      AgreeSymmetric(hunks[..|hunks| - 1], a, b);
    }
  }

  lemma {:induction false} Extend(text: seq<string>, a: int, b: int, c: int)
    requires 0 <= a <= b <= c <= |text|
    ensures text[..a] + text[a..b] + text[b..c] == text[..c]
  {
  }

  lemma {:induction false} PatchedIsOther(hunks: seq<PrintedHunk>, a: seq<string>, b: seq<string>, hidden: char)
    requires Fits(hunks, a, hidden) && Fits(hunks, b, Other(hidden)) && Agree(hunks, a, b, hidden)
    ensures PatchedUpTo(hunks, a, hidden) == b[..End(hunks, Other(hidden))]
    decreases |hunks|
  {
    if hunks != [] {
      var n := |hunks| - 1;
      PatchedIsOther(hunks[..n], a, b, hidden);
      Extend(b, End(hunks[..n], Other(hidden)), Start(hunks[n], Other(hidden)), End(hunks, Other(hidden)));
    }
  }

  lemma {:induction false} SplitAt(text: seq<string>, k: int, tail: seq<string>)
    requires 0 <= k <= |text|
    ensures text[..k] + tail == text <==> tail == text[k..]
  {
    assert text == text[..k] + text[k..];
    if text[..k] + tail == text {
      assert (text[..k] + tail)[k..] == tail;
    }
  }

  /** Agreeing hunks turn one text into the other exactly when both end alike. */
  lemma {:induction false} PatchCorrect(hunks: seq<PrintedHunk>, a: seq<string>, b: seq<string>, hidden: char)
    requires Fits(hunks, a, hidden) && Fits(hunks, b, Other(hidden)) && Agree(hunks, a, b, hidden)
    ensures Patch(hunks, a, hidden) == b <==> a[End(hunks, hidden)..] == b[End(hunks, Other(hidden))..]
  {
    PatchedIsOther(hunks, a, b, hidden);
    SplitAt(b, End(hunks, Other(hidden)), a[End(hunks, hidden)..]);
  }

  function TotalMarked(hunks: seq<PrintedHunk>, mark: char): nat {
    if hunks == [] then 0
    else TotalMarked(hunks[..|hunks| - 1], mark) + Count(hunks[|hunks| - 1].lines, mark)
  }

  /** Each hunk changes something, is grouped and has a truthful header. */
  predicate Presentable(hunks: seq<PrintedHunk>) {
    forall i | 0 <= i < |hunks| ::
      && (Count(hunks[i].lines, '-') > 0 || Count(hunks[i].lines, '+') > 0)
      && Marked(hunks[i].lines) && Grouped(hunks[i].lines)
      && hunks[i].header == HeaderOf(hunks[i])
  }

  // ---------------------------------------------------------------------------
  // The part of a script that a hunk shows
  // ---------------------------------------------------------------------------

  predicate Matches(edits: seq<Edit>, from: nat, to: nat)
    requires to <= |edits|
  {
    forall k | from <= k < to :: edits[k] == Match
  }

  /** Lines that the edits from `base` up to k print: one for every edit, two for a replacement. */
  function Width(edits: seq<Edit>, base: nat, k: nat): int
    requires base <= |edits| && k <= |edits|
  {
    LeftAt(edits, k) - LeftAt(edits, base) + AddsAt(edits, k) - AddsAt(edits, base)
  }

  /** The match number k is a common line in its place: before it, the reader of either text
      has seen exactly what the earlier edits show. */
  predicate AnchoredAt(lines: seq<Line>, edits: seq<Edit>, base: nat, k: nat)
    requires base <= k < |edits|
  {
    var at := Width(edits, base, k);
    && 0 <= at < |lines| && lines[at].mark == ' '
    && |Old(lines[..at])| == LeftAt(edits, k) - LeftAt(edits, base)
    && |New(lines[..at])| == RightAt(edits, k) - RightAt(edits, base)
  }

  predicate Anchored(lines: seq<Line>, edits: seq<Edit>, base: nat, end: nat)
    requires end <= |edits|
  {
    forall k {:trigger AnchoredAt(lines, edits, base, k)} | base <= k < end && edits[k] == Match ::
      AnchoredAt(lines, edits, base, k)
  }

  lemma {:induction false} AnchorKept(lines: seq<Line>, longer: seq<Line>, edits: seq<Edit>, base: nat, end: nat)
    requires end <= |edits| && Anchored(lines, edits, base, end) && lines <= longer
    ensures Anchored(longer, edits, base, end)
  {
    forall k | base <= k < end && edits[k] == Match
      ensures AnchoredAt(longer, edits, base, k)
    {
      assert AnchoredAt(lines, edits, base, k);
      var at := Width(edits, base, k);
      assert longer[..at] == lines[..at] && longer[at] == lines[at];
    }
  }

  /** The state shows left[a..l] and right[b..r]. */
  predicate Holds(p: Parts, left: seq<string>, right: seq<string>, a: int, l: int, b: int, r: int) {
    && p.Tidy()
    && 0 <= a <= l <= |left| && 0 <= b <= r <= |right|
    && Old(p.Lines()) == left[a..l]
    && New(p.Lines()) == right[b..r]
  }

  /** A state shows the edits from `base` up to k, each match in its place. */
  predicate Shown(p: Parts, edits: seq<Edit>, left: seq<string>, right: seq<string>, base: nat, k: nat)
    requires base <= |edits| && k <= |edits|
  {
    && base <= k
    && Holds(p, left, right, LeftAt(edits, base), LeftAt(edits, k), RightAt(edits, base), RightAt(edits, k))
    && Counted(p, edits, base, k)
    && Anchored(p.done, edits, base, k)
  }

  /** A common line pushed for the match number k is anchored. */
  lemma {:induction false} AnchorNext(p: Parts, text: string, edits: seq<Edit>, left: seq<string>, right: seq<string>, base: nat, k: nat)
    requires k < |edits| && base <= |edits| && Shown(p, edits, left, right, base, k)
    ensures Anchored(Push(p, ' ', text).done, edits, base, k + 1)
  {
    var lines := p.Lines() + [Line(' ', text)];
    AnchorKept(p.done, lines, edits, base, k);
    assert lines[..|p.Lines()|] == p.Lines();
    LineCounts(p.Lines());
    TallyIsCount(p, '+');
    assert AnchoredAt(lines, edits, base, k);
  }

  lemma {:induction false} Grow(text: seq<string>, a: int, b: int)
    requires 0 <= a <= b < |text|
    ensures text[a..b] + [text[b]] == text[a..b + 1]
  {
  }

  lemma {:induction false} HoldsCommon(p: Parts, left: seq<string>, right: seq<string>, a: int, l: int, b: int, r: int)
    requires Holds(p, left, right, a, l, b, r) && l < |left| && r < |right| && left[l] == right[r]
    ensures Holds(Push(p, ' ', left[l]), left, right, a, l + 1, b, r + 1)
  {
    PushMeaning(p, ' ', left[l], '+');
    PushMeaning(p, ' ', left[l], '-');
    PushTidy(p, ' ', left[l]);
    Grow(left, a, l);
    Grow(right, b, r);
  }

  lemma {:induction false} HoldsRemoved(p: Parts, left: seq<string>, right: seq<string>, a: int, l: int, b: int, r: int)
    requires Holds(p, left, right, a, l, b, r) && l < |left|
    ensures Holds(Push(p, '-', left[l]), left, right, a, l + 1, b, r)
  {
    PushMeaning(p, '-', left[l], '+');
    PushMeaning(p, '-', left[l], '-');
    PushTidy(p, '-', left[l]);
    Grow(left, a, l);
  }

  lemma {:induction false} HoldsAdded(p: Parts, left: seq<string>, right: seq<string>, a: int, l: int, b: int, r: int)
    requires Holds(p, left, right, a, l, b, r) && r < |right|
    ensures Holds(Push(p, '+', right[r]), left, right, a, l, b, r + 1)
  {
    PushMeaning(p, '+', right[r], '+');
    PushMeaning(p, '+', right[r], '-');
    PushTidy(p, '+', right[r]);
    Grow(right, b, r);
  }

  /** The numbers of removed and added lines belong to the edits shown. */
  predicate Counted(p: Parts, edits: seq<Edit>, base: nat, k: nat)
    requires base <= |edits| && k <= |edits|
  {
    && p.Tally('-') == RemovesAt(edits, k) - RemovesAt(edits, base)
    && p.Tally('+') == AddsAt(edits, k) - AddsAt(edits, base)
  }

  lemma {:induction false} CountedPush(p: Parts, mark: char, text: string, edits: seq<Edit>, base: nat, k: nat)
    requires base <= k < |edits| && p.Tidy() && Counted(p, edits, base, k)
    requires edits[k] != Replace && mark == (if edits[k] == Match then ' ' else if edits[k] == Remove then '-' else '+')
    ensures Counted(Push(p, mark, text), edits, base, k + 1)
  {
    PushTally(p, mark, text, '-');
    PushTally(p, mark, text, '+');
  }

  lemma {:induction false} CountedReplace(p: Parts, gone: string, come: string, edits: seq<Edit>, base: nat, k: nat)
    requires base <= k < |edits| && p.Tidy() && Counted(p, edits, base, k) && edits[k] == Replace
    ensures Counted(Push(Push(p, '-', gone), '+', come), edits, base, k + 1)
  {
  }

  /** An edit that is no match anchors nothing. */
  lemma {:induction false} AnchoredSkip(lines: seq<Line>, edits: seq<Edit>, base: nat, k: nat)
    requires k < |edits| && edits[k] != Match && Anchored(lines, edits, base, k)
    ensures Anchored(lines, edits, base, k + 1)
  {
  }

  lemma {:induction false} ShownMatch(p: Parts, edits: seq<Edit>, left: seq<string>, right: seq<string>, base: nat, k: nat)
    requires base <= k < |edits| && edits[k] == Match && InPlace(edits, left, right, k)
    requires Shown(p, edits, left, right, base, k)
    ensures Shown(Push(p, ' ', left[LeftAt(edits, k)]), edits, left, right, base, k + 1)
  {
    var l := LeftAt(edits, k);
    AnchorNext(p, left[l], edits, left, right, base, k);
    HoldsCommon(p, left, right, LeftAt(edits, base), l, RightAt(edits, base), RightAt(edits, k));
    CountedPush(p, ' ', left[l], edits, base, k);
  }

  lemma {:induction false} ShownRemove(p: Parts, edits: seq<Edit>, left: seq<string>, right: seq<string>, base: nat, k: nat)
    requires base <= k < |edits| && edits[k] == Remove && InPlace(edits, left, right, k)
    requires Shown(p, edits, left, right, base, k)
    ensures Shown(Push(p, '-', left[LeftAt(edits, k)]), edits, left, right, base, k + 1)
  {
    var l := LeftAt(edits, k);
    HoldsRemoved(p, left, right, LeftAt(edits, base), l, RightAt(edits, base), RightAt(edits, k));
    CountedPush(p, '-', left[l], edits, base, k);
    AnchoredSkip(p.done, edits, base, k);
  }

  lemma {:induction false} ShownAdd(p: Parts, edits: seq<Edit>, left: seq<string>, right: seq<string>, base: nat, k: nat)
    requires base <= k < |edits| && edits[k] == Add && InPlace(edits, left, right, k)
    requires Shown(p, edits, left, right, base, k)
    ensures Shown(Push(p, '+', right[RightAt(edits, k)]), edits, left, right, base, k + 1)
  {
    var r := RightAt(edits, k);
    assert LeftAt(edits, k + 1) == LeftAt(edits, k) && RightAt(edits, k + 1) == r + 1;
    HoldsAdded(p, left, right, LeftAt(edits, base), LeftAt(edits, k), RightAt(edits, base), r);
    CountedPush(p, '+', right[r], edits, base, k);
    AnchoredSkip(p.done, edits, base, k);
  }

  lemma {:induction false} ShownReplace(p: Parts, edits: seq<Edit>, left: seq<string>, right: seq<string>, base: nat, k: nat)
    requires base <= k < |edits| && edits[k] == Replace && InPlace(edits, left, right, k)
    requires Shown(p, edits, left, right, base, k)
    ensures Shown(Push(Push(p, '-', left[LeftAt(edits, k)]), '+', right[RightAt(edits, k)]), edits, left, right, base, k + 1)
  {
    var l, r, a, b := LeftAt(edits, k), RightAt(edits, k), LeftAt(edits, base), RightAt(edits, base);
    HoldsRemoved(p, left, right, a, l, b, r);
    HoldsAdded(Push(p, '-', left[l]), left, right, a, l + 1, b, r);
    CountedReplace(p, left[l], right[r], edits, base, k);
    AnchoredSkip(p.done, edits, base, k);
  }

  /** The hunk under construction shows the edits from `base` up to k. */
  ghost predicate Shows(h: Hunk, edits: seq<Edit>, left: seq<string>, right: seq<string>, base: nat, k: nat)
    requires base <= |edits| && k <= |edits|
    reads h
  {
    && h.Valid()
    && h.leftStart == LeftAt(edits, base) + 1 && h.rightStart == RightAt(edits, base) + 1
    && Shown(h.State(), edits, left, right, base, k)
  }

  /** Pushes the line of a match. */
  method PushCommon(h: Hunk, ghost edits: seq<Edit>, left: seq<string>, ghost right: seq<string>, l: nat,
                    ghost base: nat, ghost k: nat)
    requires base <= k < |edits| && edits[k] == Match && InPlace(edits, left, right, k) && l == LeftAt(edits, k)
    requires Shows(h, edits, left, right, base, k)
    modifies h
    ensures Shows(h, edits, left, right, base, k + 1)
    ensures h.HasEdits() <==> old(h.HasEdits())
  {
    ShownMatch(h.State(), edits, left, right, base, k);
    h.PushLine(' ', left[l]);
  }

  /** Pushes the lines of the edit number k and advances the positions. */
  method PushEdit(h: Hunk, edits: seq<Edit>, left: seq<string>, right: seq<string>, l: nat, r: nat, ghost base: nat, k: nat)
    returns (l': nat, r': nat)
    requires base <= k < |edits| && InPlace(edits, left, right, k) && l == LeftAt(edits, k) && r == RightAt(edits, k)
    requires Shows(h, edits, left, right, base, k)
    modifies h
    ensures Shows(h, edits, left, right, base, k + 1)
    ensures h.HasEdits() <==> old(h.HasEdits()) || edits[k] != Match
    ensures l' == LeftAt(edits, k + 1) && r' == RightAt(edits, k + 1)
  {
    match edits[k] {
      case Match =>
        PushCommon(h, edits, left, right, l, base, k);
      case Remove =>
        ShownRemove(h.State(), edits, left, right, base, k);
        h.PushLine('-', left[l]);
      case Add =>
        ShownAdd(h.State(), edits, left, right, base, k);
        h.PushLine('+', right[r]);
      case Replace =>
        ShownReplace(h.State(), edits, left, right, base, k);
        h.PushLine('-', left[l]);
        h.PushLine('+', right[r]);
    }
    l' := l + (if edits[k] != Add then 1 else 0);
    r' := r + (if edits[k] != Remove then 1 else 0);
  }

  // ---------------------------------------------------------------------------
  // Cutting a script into hunks
  // ---------------------------------------------------------------------------

  /** The first edit at or behind `from` that is not a match. */
  method FindEdit(edits: seq<Edit>, from: nat) returns (to: nat)
    requires from <= |edits|
    ensures from <= to <= |edits| && Matches(edits, from, to)
    ensures to < |edits| ==> edits[to] != Match
  {
    to := from;
    while to < |edits| && edits[to] == Match
      invariant from <= to <= |edits| && Matches(edits, from, to)
    {
      to := to + 1;
    }
  }

  function Min(a: nat, b: nat): nat {
    if a < b then a else b
  }

  /** Pushes the n common lines in front of the edit number `first`. */
  method PushContext(h: Hunk, ghost edits: seq<Edit>, left: seq<string>, ghost right: seq<string>, l: nat, n: nat, ghost first: nat)
    requires Runs(edits, left, right) && n <= first <= |edits| && Matches(edits, first - n, first)
    requires l == LeftAt(edits, first)
    requires Shows(h, edits, left, right, first - n, first - n) && !h.HasEdits()
    modifies h
    ensures Shows(h, edits, left, right, first - n, first) && !h.HasEdits()
  {
    var i := n;
    while i > 0
      invariant 0 <= i <= n
      invariant Shows(h, edits, left, right, first - n, first - i) && !h.HasEdits()
    {
      ghost var k := first - i;
      MatchedPositions(edits, k, first);
      assert InPlace(edits, left, right, k);
      PushCommon(h, edits, left, right, l - i, first - n, k);
      i := i - 1;
    }
  }

  lemma {:induction false} NothingShown(edits: seq<Edit>, left: seq<string>, right: seq<string>, k: nat)
    requires Runs(edits, left, right) && k <= |edits|
    ensures Shown(Parts([], [], []), edits, left, right, k, k)
  {
    PositionsGrow(edits, left, right, k);
  }

  /** A new hunk with up to `context` common lines in front of the edit number `first`. The start
      positions never drop below zero. */
  method OpenHunk(edits: seq<Edit>, left: seq<string>, right: seq<string>, l: nat, r: nat, context: nat, ghost first: nat)
    returns (h: Hunk)
    requires Runs(edits, left, right) && first <= |edits|
    requires l == LeftAt(edits, first) && r == RightAt(edits, first)
    requires Min(l, context) <= first && Matches(edits, first - Min(l, context), first)
    ensures fresh(h)
    ensures Shows(h, edits, left, right, first - Min(l, context), first) && !h.HasEdits()
  {
    var prefix := Min(l, context);
    ghost var base := first - prefix;
    MatchedPositions(edits, base, first);
    NothingShown(edits, left, right, base);
    h := new Hunk(l - prefix + 1, r - prefix + 1);
    PushContext(h, edits, left, right, l, prefix, first);
  }

  /** The next `context` edits, as far as there are any, are matches. */
  predicate Quiet(edits: seq<Edit>, from: nat, context: nat) {
    forall k | from <= k < |edits| && k < from + context :: edits[k] == Match
  }

  /** No run of matches between `from` and `to` is as long as `gap`. */
  predicate Joined(edits: seq<Edit>, from: nat, to: nat, gap: nat)
    requires to <= |edits|
  {
    forall i: nat, j: nat | from <= i < j <= to && Matches(edits, i, j) :: j - i < gap
  }

  /** Where the edits of a hunk lie: context from `base`, changes from `first`, context again
      from `last`. */
  datatype Span = Span(base: nat, first: nat, last: nat, end: nat)

  /** The span starts and ends with a change, has `context` matches around it as far as there
      are any, and nowhere inside enough of them to be cut in two. */
  predicate Spans(s: Span, edits: seq<Edit>, context: nat) {
    && s.base <= s.first < s.last <= s.end <= |edits|
    && edits[s.first] != Match && edits[s.last - 1] != Match
    && s.base == s.first - Min(s.first, context) && Matches(edits, s.base, s.first)
    && s.end == s.last + Min(|edits| - s.last, context) && Matches(edits, s.last, s.end)
    && Joined(edits, s.first, s.last, 2 * context)
  }

  /** The state of a hunk that is being filled: its last change lies just before `last`. More than
      `context` matches have followed it only if another change is known to be near. */
  predicate Filling(edits: seq<Edit>, first: nat, last: nat, k: nat, context: nat)
    requires k <= |edits|
  {
    && first <= last <= k && Matches(edits, last, k)
    && (first < k ==> context > 0 && first < last && edits[last - 1] != Match)
    && Joined(edits, first, last, 2 * context)
    && (k - last > context ==> !Quiet(edits, last + context, context))
  }

  lemma {:induction false} StillQuiet(edits: seq<Edit>, last: nat, k: nat, context: nat)
    requires last <= k <= |edits| && Matches(edits, last, k) && k - last >= context
    requires Quiet(edits, k, context)
    ensures Quiet(edits, last + context, context)
  {
  }

  /** Another edit goes into the hunk, unless enough matches have passed and no change is near. */
  lemma {:induction false} FillingNext(edits: seq<Edit>, first: nat, last: nat, k: nat, context: nat)
    requires k < |edits| && Filling(edits, first, last, k, context)
    requires context > 0 && (k == first ==> edits[k] != Match)
    requires k - last >= context ==> !Quiet(edits, k, context)
    ensures Filling(edits, first, if edits[k] == Match then last else k + 1, k + 1, context)
  {
    if edits[k] != Match {
      forall i: nat, j: nat | first <= i < j <= k + 1 && Matches(edits, i, j)
        ensures j - i < 2 * context
      {
        assert j <= k;
        assert last < j ==> last <= i;
      }
    }
  }

  /** Once the hunk stops growing it has its context behind it and no more. */
  lemma {:induction false} FillingDone(edits: seq<Edit>, first: nat, last: nat, k: nat, context: nat)
    requires k <= |edits| && Filling(edits, first, last, k, context)
    requires k < |edits| ==> k - last >= context && Quiet(edits, k, context)
    ensures k == last + Min(|edits| - last, context)
  {
    if k - last >= context {
      StillQuiet(edits, last, k, context);
    }
  }

  /** Whether the hunk has its context and no change is near. */
  method Enough(edits: seq<Edit>, editI: nat, nSuffix: nat, context: nat) returns (enough: bool)
    requires editI < |edits|
    ensures enough <==> nSuffix >= context && Quiet(edits, editI, context)
  {
    if nSuffix >= context {
      var next := FindEdit(edits, editI);
      return next == |edits| || next - editI >= context;
    }
    return false;
  }

  /** Pushes edits until enough common lines have followed the last change. */
  method FillHunk(h: Hunk, edits: seq<Edit>, left: seq<string>, right: seq<string>, context: nat,
                  first: nat, l0: nat, r0: nat, ghost base: nat)
    returns (editI: nat, l: nat, r: nat, ghost last: nat)
    requires Runs(edits, left, right)
    requires base <= first <= |edits| && l0 == LeftAt(edits, first) && r0 == RightAt(edits, first)
    requires first < |edits| ==> edits[first] != Match
    requires Shows(h, edits, left, right, base, first) && !h.HasEdits()
    modifies h
    ensures first <= editI <= |edits| && l == LeftAt(edits, editI) && r == RightAt(edits, editI)
    ensures Shows(h, edits, left, right, base, editI)
    ensures h.HasEdits() <==> first < editI
    ensures first < editI <==> first < |edits| && context > 0
    ensures editI < |edits| ==> Quiet(edits, editI, context)
    ensures Filling(edits, first, last, editI, context) && editI == last + Min(|edits| - last, context)
  {
    editI, l, r, last := first, l0, r0, first;
    var nSuffix := 0;
    while editI < |edits|
      invariant first <= editI <= |edits| && l == LeftAt(edits, editI) && r == RightAt(edits, editI)
      invariant Shows(h, edits, left, right, base, editI)
      invariant h.HasEdits() <==> first < editI
      invariant Filling(edits, first, last, editI, context) && nSuffix == editI - last
    {
      var enough := Enough(edits, editI, nSuffix, context);
      if enough {
        break;
      }
      FillingNext(edits, first, last, editI, context);
      nSuffix := if edits[editI] == Match then nSuffix + 1 else 0;
      last := if edits[editI] == Match then last else editI + 1;
      assert InPlace(edits, left, right, editI);
      l, r := PushEdit(h, edits, left, right, l, r, base, editI);
      editI := editI + 1;
    }
    FillingDone(edits, first, last, editI, context);
  }

  /** What has been emitted once the first k edits are dealt with. */
  ghost predicate Emitted(hunks: seq<PrintedHunk>, edits: seq<Edit>, left: seq<string>, right: seq<string>, k: nat)
    requires k <= |edits|
  {
    && Fits(hunks, left, '+') && Fits(hunks, right, '-') && Agree(hunks, left, right, '+')
    && Presentable(hunks)
    && End(hunks, '+') == LeftAt(edits, k) && End(hunks, '-') == RightAt(edits, k)
    && TotalMarked(hunks, '-') == RemovesAt(edits, k)
    && TotalMarked(hunks, '+') == AddsAt(edits, k)
  }

  lemma {:induction false} FitsSnoc(hunks: seq<PrintedHunk>, h: PrintedHunk, text: seq<string>, hidden: char)
    requires Fits(hunks, text, hidden)
    requires HunkFits(h, text, End(hunks, hidden), hidden)
    ensures Fits(hunks + [h], text, hidden)
    ensures End(hunks + [h], hidden) == Start(h, hidden) + |Seen(h.lines, hidden)|
  {
    assert (hunks + [h])[..|hunks|] == hunks;
  }

  lemma {:induction false} AgreeSnoc(hunks: seq<PrintedHunk>, h: PrintedHunk, a: seq<string>, b: seq<string>)
    requires Fits(hunks, a, '+') && Fits(hunks, b, '-') && Agree(hunks, a, b, '+')
    requires HunkFits(h, a, End(hunks, '+'), '+') && HunkFits(h, b, End(hunks, '-'), '-')
    requires a[End(hunks, '+')..Start(h, '+')] == b[End(hunks, '-')..Start(h, '-')]
    ensures Fits(hunks + [h], a, '+') && Fits(hunks + [h], b, '-') && Agree(hunks + [h], a, b, '+')
  {
    FitsSnoc(hunks, h, a, '+');
    FitsSnoc(hunks, h, b, '-');
    assert (hunks + [h])[..|hunks|] == hunks;
  }

  lemma {:induction false} TotalSnoc(hunks: seq<PrintedHunk>, h: PrintedHunk, mark: char)
    ensures TotalMarked(hunks + [h], mark) == TotalMarked(hunks, mark) + Count(h.lines, mark)
  {
    assert (hunks + [h])[..|hunks|] == hunks;
  }

  /** A printed hunk shows exactly the edits from `base` up to `end`, each match in its place. */
  ghost predicate Finished(h: PrintedHunk, edits: seq<Edit>, left: seq<string>, right: seq<string>, base: nat, end: nat)
    requires base <= end <= |edits|
  {
    && Start(h, '+') == LeftAt(edits, base) <= LeftAt(edits, end) <= |left|
    && Start(h, '-') == RightAt(edits, base) <= RightAt(edits, end) <= |right|
    && Old(h.lines) == left[LeftAt(edits, base)..LeftAt(edits, end)]
    && New(h.lines) == right[RightAt(edits, base)..RightAt(edits, end)]
    && Count(h.lines, '-') == RemovesAt(edits, end) - RemovesAt(edits, base)
    && Count(h.lines, '+') == AddsAt(edits, end) - AddsAt(edits, base)
    && Anchored(h.lines, edits, base, end)
    && Presentable([h])
  }

  /** A finished hunk lies behind the emitted ones, with only matches in between. */
  lemma {:induction false} EmitHunk(hunks: seq<PrintedHunk>, h: PrintedHunk, edits: seq<Edit>,
                                    left: seq<string>, right: seq<string>, done: nat, base: nat, end: nat)
    requires Runs(edits, left, right) && done <= base <= end <= |edits| && Matches(edits, done, base)
    requires Emitted(hunks, edits, left, right, done)
    requires Finished(h, edits, left, right, base, end)
    ensures Emitted(hunks + [h], edits, left, right, end)
  {
    MatchedRun(edits, left, right, done, base);
    AgreeSnoc(hunks, h, left, right);
    FitsSnoc(hunks, h, left, '+');
    FitsSnoc(hunks, h, right, '-');
    TotalSnoc(hunks, h, '-');
    TotalSnoc(hunks, h, '+');
    PresentableSnoc(hunks, h);
  }

  lemma {:induction false} PresentableSnoc(hunks: seq<PrintedHunk>, h: PrintedHunk)
    requires Presentable(hunks) && Presentable([h])
    ensures Presentable(hunks + [h])
  {
    assert [h][0] == h;
  }

  /** The hunk shows the edits of the span. */
  ghost predicate HunkShows(h: PrintedHunk, s: Span, edits: seq<Edit>, left: seq<string>, right: seq<string>, context: nat) {
    Spans(s, edits, context) && Finished(h, edits, left, right, s.base, s.end)
  }

  /** Each hunk shows the edits of its span; the changes of two spans lie at least two contexts
      apart, so that the spans do not overlap. */
  ghost predicate Cut(hunks: seq<PrintedHunk>, spans: seq<Span>, edits: seq<Edit>,
                      left: seq<string>, right: seq<string>, context: nat)
  {
    && |spans| == |hunks|
    && (forall i | 0 <= i < |spans| :: HunkShows(hunks[i], spans[i], edits, left, right, context))
    && (forall i, j | 0 <= i < j < |spans| :: spans[i].last + 2 * context <= spans[j].first)
  }

  /** No two hunks show the same edit. */
  lemma {:induction false} SpansDisjoint(hunks: seq<PrintedHunk>, spans: seq<Span>, edits: seq<Edit>,
                      left: seq<string>, right: seq<string>, context: nat, i: nat, j: nat)
    requires Cut(hunks, spans, edits, left, right, context) && i < j < |spans|
    ensures spans[i].end <= spans[j].base
  {
    assert HunkShows(hunks[i], spans[i], edits, left, right, context);
    assert HunkShows(hunks[j], spans[j], edits, left, right, context);
  }

  lemma {:induction false} WidthOfMatches(edits: seq<Edit>, base: nat, a: nat, b: nat)
    requires base <= a <= b <= |edits| && Matches(edits, a, b)
    ensures Width(edits, base, b) == Width(edits, base, a) + (b - a)
    decreases b
  {
    if a < b {
      WidthOfMatches(edits, base, a, b - 1);
    }
  }

  /** A run of matches is a run of common lines. */
  lemma {:induction false} MatchesAreCommon(lines: seq<Line>, edits: seq<Edit>, base: nat, end: nat, a: nat, b: nat)
    requires base <= a <= b <= end <= |edits| && Anchored(lines, edits, base, end) && Matches(edits, a, b)
    requires 0 <= Width(edits, base, a) && Width(edits, base, b) <= |lines|
    ensures Width(edits, base, b) == Width(edits, base, a) + (b - a)
    ensures AllMarked(lines[Width(edits, base, a)..Width(edits, base, b)], ' ')
  {
    WidthOfMatches(edits, base, a, b);
    var run := lines[Width(edits, base, a)..Width(edits, base, b)];
    forall i | 0 <= i < |run|
      ensures run[i].mark == ' '
    {
      WidthOfMatches(edits, base, a, a + i);
      assert AnchoredAt(lines, edits, base, a + i);
    }
  }

  lemma {:induction false} HunkWidth(h: PrintedHunk, edits: seq<Edit>, left: seq<string>, right: seq<string>, base: nat, end: nat)
    requires base <= end <= |edits| && Finished(h, edits, left, right, base, end)
    ensures |h.lines| == Width(edits, base, end)
  {
    assert [h][0] == h;
    LineCounts(h.lines);
  }

  /** A run of n matches at the start or the end of a hunk is n common lines there. */
  lemma {:induction false} EdgesAreCommon(lines: seq<Line>, edits: seq<Edit>, base: nat, end: nat, first: nat, last: nat)
    requires base <= first <= end <= |edits| && base <= last <= end
    requires Anchored(lines, edits, base, end) && |lines| == Width(edits, base, end)
    requires Matches(edits, base, first) && Matches(edits, last, end)
    ensures first - base <= |lines| && AllMarked(lines[..first - base], ' ')
    ensures end - last <= |lines| && AllMarked(lines[|lines| - (end - last)..], ' ')
  {
    WidthGrows(edits, base, first, end);
    WidthGrows(edits, base, last, end);
    MatchesAreCommon(lines, edits, base, end, base, first);
    MatchesAreCommon(lines, edits, base, end, last, end);
    assert lines[0..first - base] == lines[..first - base];
    assert lines[|lines| - (end - last)..|lines|] == lines[|lines| - (end - last)..];
  }

  /** A hunk starts and ends with as many common lines as its span has context. */
  lemma {:induction false} ContextLines(h: PrintedHunk, s: Span, edits: seq<Edit>, left: seq<string>, right: seq<string>, context: nat)
    requires HunkShows(h, s, edits, left, right, context)
    ensures Min(s.first, context) <= |h.lines| && AllMarked(h.lines[..Min(s.first, context)], ' ')
    ensures Min(|edits| - s.last, context) <= |h.lines|
    ensures AllMarked(h.lines[|h.lines| - Min(|edits| - s.last, context)..], ' ')
  {
    HunkWidth(h, edits, left, right, s.base, s.end);
    EdgesAreCommon(h.lines, edits, s.base, s.end, s.first, s.last);
  }

  lemma {:induction false} WidthGrows(edits: seq<Edit>, base: nat, k: nat, end: nat)
    requires base <= k <= end <= |edits|
    ensures 0 <= Width(edits, base, k) <= Width(edits, base, end)
    decreases end
  {
    if k < end {
      WidthGrows(edits, base, k, end - 1);
    } else if base < end {
      WidthGrows(edits, base, end - 1, end - 1);
    }
  }

  /** A printed range names the lines that the hunk shows of that text, counted from 1. */
  predicate Names(range: Option<Range>, text: seq<string>, shown: seq<string>) {
    range.Some? ==>
      && 1 <= range.value.start <= range.value.start + range.value.length <= |text| + 1
      && text[range.value.start - 1..range.value.start - 1 + range.value.length] == shown
  }

  predicate HeaderTrue(h: PrintedHunk, left: seq<string>, right: seq<string>) {
    && Names(h.header.left, left, Old(h.lines)) && Names(h.header.right, right, New(h.lines))
    && (h.header.left.Some? <==> Count(h.lines, '-') > 0)
    && (h.header.right.Some? <==> Count(h.lines, '+') > 0)
  }

  lemma {:induction false} FinishedHeader(h: PrintedHunk, edits: seq<Edit>, left: seq<string>, right: seq<string>, base: nat, end: nat)
    requires base <= end <= |edits| && Finished(h, edits, left, right, base, end)
    ensures HeaderTrue(h, left, right)
  {
    assert [h][0] == h;
  }

  lemma {:induction false} HeadersTrue(hunks: seq<PrintedHunk>, spans: seq<Span>, edits: seq<Edit>,
                                       left: seq<string>, right: seq<string>, context: nat)
    requires Cut(hunks, spans, edits, left, right, context)
    ensures forall i | 0 <= i < |hunks| :: HeaderTrue(hunks[i], left, right)
  {
    forall i | 0 <= i < |hunks|
      ensures HeaderTrue(hunks[i], left, right)
    {
      assert HunkShows(hunks[i], spans[i], edits, left, right, context);
      FinishedHeader(hunks[i], edits, left, right, spans[i].base, spans[i].end);
    }
  }

  /** The edit number k lies between the changes of a span. */
  predicate Inside(s: Span, k: nat) {
    s.first <= k < s.last
  }

  predicate Covered(spans: seq<Span>, k: nat) {
    exists i | 0 <= i < |spans| :: Inside(spans[i], k)
  }

  /** Two neighbouring changes are in one hunk exactly when fewer matches lie between them than
      two contexts take. */
  lemma {:induction false} JoinedExactly(hunks: seq<PrintedHunk>, spans: seq<Span>, edits: seq<Edit>,
                      left: seq<string>, right: seq<string>, context: nat, p: nat, q: nat)
    requires context > 0 && Cut(hunks, spans, edits, left, right, context)
    requires p < q < |edits| && Matches(edits, p + 1, q) && Covered(spans, p) && Covered(spans, q)
    ensures (exists i | 0 <= i < |spans| :: Inside(spans[i], p) && Inside(spans[i], q)) <==> q - p - 1 < 2 * context
  {
    var i :| 0 <= i < |spans| && Inside(spans[i], p);
    var j :| 0 <= j < |spans| && Inside(spans[j], q);
    if i == j {
      assert HunkShows(hunks[i], spans[i], edits, left, right, context);
      NearInSpan(spans[i], edits, context, p, q);
    } else {
      ApartWithout(spans, context, p, q, i, j);
    }
  }

  lemma {:induction false} NearInSpan(s: Span, edits: seq<Edit>, context: nat, p: nat, q: nat)
    requires context > 0 && Spans(s, edits, context) && p < q && Inside(s, p) && Inside(s, q) && Matches(edits, p + 1, q)
    ensures q - p - 1 < 2 * context
  {
    assert Joined(edits, s.first, s.last, 2 * context);
  }

  /** Changes in different spans lie two contexts apart and share none. */
  lemma {:induction false} ApartWithout(spans: seq<Span>, context: nat, p: nat, q: nat, i: nat, j: nat)
    requires forall a, b | 0 <= a < b < |spans| :: spans[a].last + 2 * context <= spans[b].first
    requires i < |spans| && j < |spans| && i != j && Inside(spans[i], p) && Inside(spans[j], q) && p < q
    ensures q - p - 1 >= 2 * context
    ensures !exists k | 0 <= k < |spans| :: Inside(spans[k], p) && Inside(spans[k], q)
  {
  }

  /** The spans end before `done`, and no change before it is outside of them. */
  predicate Reaches(spans: seq<Span>, edits: seq<Edit>, done: nat)
    requires done <= |edits|
  {
    && (forall i | 0 <= i < |spans| :: spans[i].end <= done)
    && (forall k | 0 <= k < done && edits[k] != Match :: Covered(spans, k))
  }

  /** The next span lies at least two contexts behind all earlier ones. */
  lemma {:induction false} SpanBehind(spans: seq<Span>, s: Span, edits: seq<Edit>, context: nat, done: nat, i: nat)
    requires done < |edits| && Reaches(spans, edits, done) && i < |spans| && Spans(spans[i], edits, context)
    requires 0 < done ==> done + context <= s.first
    ensures spans[i].last + 2 * context <= s.first
  {
  }

  lemma {:induction false} CutSnoc(hunks: seq<PrintedHunk>, h: PrintedHunk, spans: seq<Span>, s: Span, edits: seq<Edit>,
                left: seq<string>, right: seq<string>, context: nat, done: nat)
    requires done < |edits| && Cut(hunks, spans, edits, left, right, context) && Reaches(spans, edits, done)
    requires HunkShows(h, s, edits, left, right, context)
    requires 0 < done ==> done + context <= s.first
    ensures Cut(hunks + [h], spans + [s], edits, left, right, context)
  {
    var hs, ss := hunks + [h], spans + [s];
    forall i | 0 <= i < |ss|
      ensures HunkShows(hs[i], ss[i], edits, left, right, context)
    {
      if i < |spans| {
        assert HunkShows(hunks[i], spans[i], edits, left, right, context);
      }
    }
    forall i, j | 0 <= i < j < |ss|
      ensures ss[i].last + 2 * context <= ss[j].first
    {
      if j == |spans| {
        assert HunkShows(hunks[i], spans[i], edits, left, right, context);
        SpanBehind(spans, s, edits, context, done, i);
      }
    }
  }

  lemma {:induction false} ReachesSnoc(spans: seq<Span>, s: Span, edits: seq<Edit>, context: nat, done: nat)
    requires done <= s.first && Spans(s, edits, context) && Reaches(spans, edits, done)
    requires Matches(edits, done, s.first)
    ensures Reaches(spans + [s], edits, s.end)
  {
    var all := spans + [s];
    forall k | 0 <= k < s.end && edits[k] != Match
      ensures Covered(all, k)
    {
      if k < done {
        var i :| 0 <= i < |spans| && Inside(spans[i], k);
        assert all[i] == spans[i];
      } else {
        assert all[|spans|] == s && Inside(s, k);
      }
    }
  }

  /** The lines in front of an edit are common as far back as the context reaches, and start
      behind the previous hunk unless no edit is left. */
  lemma {:induction false} ContextAgrees(edits: seq<Edit>, left: seq<string>, right: seq<string>,
                                         done: nat, first: nat, context: nat)
    requires Runs(edits, left, right) && done <= first <= |edits| && done < |edits|
    requires Matches(edits, done, first) && (first < |edits| ==> edits[first] != Match)
    requires 0 < done ==> Quiet(edits, done, context) && context <= done && Matches(edits, done - context, done)
    ensures LeftAt(edits, first) == LeftAt(edits, done) + (first - done)
    ensures RightAt(edits, first) == RightAt(edits, done) + (first - done)
    ensures Min(LeftAt(edits, first), context) == Min(first, context)
    ensures Matches(edits, first - Min(first, context), first)
    ensures first < |edits| ==> done <= first - Min(first, context)
    ensures first < |edits| && 0 < done ==> done + context <= first
  {
    MatchedPositions(edits, done, first);
    if 0 < done {
      MatchedPositions(edits, done - context, done);
    }
  }

  lemma {:induction false} AllEmitted(hunks: seq<PrintedHunk>, edits: seq<Edit>, left: seq<string>, right: seq<string>, done: nat)
    requires Runs(edits, left, right) && done <= |edits|
    requires Emitted(hunks, edits, left, right, done) && Matches(edits, done, |edits|)
    ensures Patch(hunks, left, '+') == right && Patch(hunks, right, '-') == left
    ensures TotalMarked(hunks, '-') == RemovesAt(edits, |edits|)
    ensures TotalMarked(hunks, '+') == AddsAt(edits, |edits|)
  {
    MatchedRun(edits, left, right, done, |edits|);
    AgreeSymmetric(hunks, left, right);
    PatchCorrect(hunks, left, right, '+');
    PatchCorrect(hunks, right, left, '-');
  }

  /** The outer loop may go on from the edit number k: it stands behind the context of a hunk. */
  predicate Between(edits: seq<Edit>, k: nat, context: nat)
    requires k <= |edits|
  {
    0 < k < |edits| ==> Quiet(edits, k, context) && context <= k && Matches(edits, k - context, k)
  }

  /** A filled hunk covers a span and leaves the loop behind its context. */
  lemma {:induction false} SpanFound(edits: seq<Edit>, first: nat, last: nat, end: nat, context: nat)
    requires first < end <= |edits| && edits[first] != Match && Matches(edits, first - Min(first, context), first)
    requires Filling(edits, first, last, end, context) && end == last + Min(|edits| - last, context)
    requires end < |edits| ==> Quiet(edits, end, context)
    ensures Spans(Span(first - Min(first, context), first, last, end), edits, context) && Between(edits, end, context)
  {
  }

  /** Finds the first edit and goes back for context. */
  method StartHunk(script: seq<Edit>, left: seq<string>, right: seq<string>, context: nat, editI: nat, l: nat, r: nat)
    returns (h: Hunk, at: nat, l': nat, r': nat)
    requires Runs(script, left, right)
    requires editI < |script| && l == LeftAt(script, editI) && r == RightAt(script, editI)
    requires Between(script, editI, context)
    ensures fresh(h)
    ensures editI <= at <= |script| && Matches(script, editI, at) && (at < |script| ==> script[at] != Match)
    ensures l' == LeftAt(script, at) && r' == RightAt(script, at)
    ensures Matches(script, at - Min(at, context), at)
    ensures Shows(h, script, left, right, at - Min(at, context), at) && !h.HasEdits()
    ensures at < |script| ==> editI <= at - Min(at, context) && (0 < editI ==> editI + context <= at)
  {
    at := FindEdit(script, editI);
    ContextAgrees(script, left, right, editI, at, context);
    l', r' := l + (at - editI), r + (at - editI);
    h := OpenHunk(script, left, right, l', r', context, at);
  }

  /** Collects the hunk around the next edit. */
  method BuildHunk(script: seq<Edit>, left: seq<string>, right: seq<string>, context: nat, editI: nat, l: nat, r: nat)
    returns (h: Hunk, editI': nat, l': nat, r': nat, ghost s: Span)
    requires Runs(script, left, right)
    requires editI < |script| && l == LeftAt(script, editI) && r == RightAt(script, editI)
    requires Between(script, editI, context)
    ensures fresh(h)
    ensures editI <= s.first <= |script| && Matches(script, editI, s.first) && s.base <= s.end == editI' <= |script|
    ensures l' == LeftAt(script, editI') && r' == RightAt(script, editI')
    ensures Shows(h, script, left, right, s.base, s.end)
    ensures h.HasEdits() <==> s.first < |script| && context > 0
    ensures h.HasEdits() ==> Spans(s, script, context) && Between(script, editI', context)
    ensures h.HasEdits() ==> editI <= s.base && (0 < editI ==> editI + context <= s.first)
  {
    var at;
    h, at, l', r' := StartHunk(script, left, right, context, editI, l, r);
    ghost var base, last := at - Min(at, context), at;
    editI', l', r', last := FillHunk(h, script, left, right, context, at, l', r', base);
    s := Span(base, at, last, editI');
    if at < editI' {
      SpanFound(script, at, last, editI', context);
    }
  }

  /** One round of the outer loop: the next hunk, or none if only matches (or no context) remain. */
  method NextHunk(script: seq<Edit>, left: seq<string>, right: seq<string>, context: nat,
                  editI: nat, l: nat, r: nat, ghost hunks: seq<PrintedHunk>, ghost spans: seq<Span>)
    returns (next: Option<PrintedHunk>, editI': nat, l': nat, r': nat, ghost s: Span)
    requires Runs(script, left, right)
    requires editI < |script| && l == LeftAt(script, editI) && r == RightAt(script, editI)
    requires Between(script, editI, context)
    requires Emitted(hunks, script, left, right, editI)
    requires Cut(hunks, spans, script, left, right, context) && Reaches(spans, script, editI)
    ensures next.Some? ==> editI < editI' <= |script| && l' == LeftAt(script, editI') && r' == RightAt(script, editI')
    ensures next.Some? ==> Between(script, editI', context)
    ensures next.Some? ==> Emitted(hunks + [next.value], script, left, right, editI')
    ensures next.Some? ==> Cut(hunks + [next.value], spans + [s], script, left, right, context)
    ensures next.Some? ==> Reaches(spans + [s], script, editI')
    ensures next.None? && context > 0 ==> Matches(script, editI, |script|)
    ensures next.Some? ==> context > 0
  {
    var h: Hunk;
    h, editI', l', r', s := BuildHunk(script, left, right, context, editI, l, r);
    if !h.HasEdits() {
      return None, editI', l', r', s;
    }
    AnchorKept(h.hunk, h.State().Lines(), script, s.base, s.end);
    TallyIsCount(h.State(), '-');
    TallyIsCount(h.State(), '+');
    var printed := h.PrintTo();
    assert Presentable([printed]);
    assert Finished(printed, script, left, right, s.base, s.end);
    EmitHunk(hunks, printed, script, left, right, editI, s.base, s.end);
    assert HunkShows(printed, s, script, left, right, context);
    CutSnoc(hunks, printed, spans, s, script, left, right, context, editI);
    ReachesSnoc(spans, s, script, context, editI);
    next := Some(printed);
  }

  /** A text needs no changes to become itself. */
  lemma {:induction false} SameTextMatches(text: seq<string>, n: nat)
    requires n <= |text|
    ensures var edits := Script(text, text, n, n); Matches(edits, 0, |edits|)
  {
    if n > 0 {
      SameTextMatches(text, n - 1);
    }
  }

  lemma {:induction false} HunksNeedChanges(hunks: seq<PrintedHunk>, spans: seq<Span>, edits: seq<Edit>,
                         left: seq<string>, right: seq<string>, context: nat)
    requires Cut(hunks, spans, edits, left, right, context)
    ensures hunks == [] || !Matches(edits, 0, |edits|)
  {
    if hunks != [] {
      assert HunkShows(hunks[0], spans[0], edits, left, right, context);
      assert edits[spans[0].first] != Match;
    }
  }

  /** The hunks of the diff and where their edits lie in the computed script. With context, every
      change is in exactly one hunk, with that many matches around it as far as there are any.
      Applying the hunks to left gives right, and applying them backwards to right gives left,
      exactly when context was asked for or nothing differs. */
  method CreateUnifiedDiff(left: seq<string>, right: seq<string>, context: nat)
    returns (hunks: seq<PrintedHunk>, ghost edits: seq<Edit>, ghost spans: seq<Span>)
    ensures edits == Script(left, right, |left|, |right|) && Transforms(edits, left, right)
    ensures Cut(hunks, spans, edits, left, right, context)
    ensures context > 0 ==> forall k | 0 <= k < |edits| && edits[k] != Match :: Covered(spans, k)
    ensures Fits(hunks, left, '+') && Fits(hunks, right, '-')
    ensures Presentable(hunks) && forall i | 0 <= i < |hunks| :: HeaderTrue(hunks[i], left, right)
    ensures Patch(hunks, left, '+') == right <==> context > 0 || left == right
    ensures Patch(hunks, right, '-') == left <==> context > 0 || left == right
    ensures context > 0 ==> TotalMarked(hunks, '-') == RemovesAt(edits, |edits|)
                            && TotalMarked(hunks, '+') == AddsAt(edits, |edits|)
    ensures hunks == [] <==> context == 0 || left == right
  {
    var script := CalculateOptimalLineEdits(left, right);
    edits := script;
    TransformsRuns(script, left, right);
    hunks, spans := [], [];
    var l, r, editI := 0, 0, 0;
    ghost var done := 0;
    while editI < |script|
      invariant 0 <= editI <= |script| && l == LeftAt(script, editI) && r == RightAt(script, editI)
      invariant done == editI && Emitted(hunks, script, left, right, done)
      invariant Cut(hunks, spans, script, left, right, context) && Reaches(spans, script, done)
      invariant Between(script, editI, context)
      invariant context == 0 ==> hunks == []
      decreases |script| - editI
    {
      var next, editI', l', r';
      ghost var s;
      next, editI', l', r', s := NextHunk(script, left, right, context, editI, l, r, hunks, spans);
      if next.None? {
        break;
      }
      hunks, spans := hunks + [next.value], spans + [s];
      editI, l, r, done := editI', l', r', editI';
    }
    HeadersTrue(hunks, spans, script, left, right, context);
    if context > 0 {
      AllEmitted(hunks, script, left, right, done);
    }
    if left == right {
      SameTextMatches(left, |left|);
      HunksNeedChanges(hunks, spans, script, left, right, context);
    }
  }
}
