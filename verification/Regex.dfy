/**
 Google Test's simple regular expressions: the validator, the backtracking matcher and the
 RE class built on them.

 The meaning of a regular expression is given on its syntax tree (a Pattern). The main
 results: the validator accepts exactly the strings that render a well-formed tree, the
 matcher decides exactly the language of the tree, and a full match is what it should be
 for exactly the expressions that do not end in an escaped '$'.
 */
module SimpleRegex {
  import opened Options

  /** What a C string can hold. */
  type CString = s: string | forall i | 0 <= i < |s| :: s[i] != '\0'

  const SIZE_MAX: nat := 0xFFFF_FFFF_FFFF_FFFF

  // ---------------------------------------------------------------------------
  // Character classes
  // ---------------------------------------------------------------------------

  predicate IsInSet(ch: char, str: string) {
    ch != '\0' && ch in str
  }

  predicate IsAsciiDigit(ch: char) {
    '0' <= ch <= '9'
  }

  predicate IsAsciiPunct(ch: char) {
    IsInSet(ch, "^-!\"#$%&'()*+,./:;<=>?@[\\]_`{|}~")
  }

  predicate IsRepeat(ch: char) {
    IsInSet(ch, "?*+")
  }

  predicate IsAsciiWhiteSpace(ch: char) {
    IsInSet(ch, " \U{0C}\n\r\t\U{0B}")
  }

  predicate IsAsciiWordChar(ch: char) {
    'a' <= ch <= 'z' || 'A' <= ch <= 'Z' || '0' <= ch <= '9' || ch == '_'
  }

  predicate IsValidEscape(c: char) {
    IsAsciiPunct(c) || IsInSet(c, "dDfnrsStvwW")
  }

  predicate AtomMatchesChar(escaped: bool, patternChar: char, ch: char) {
    if escaped then
      match patternChar
      case 'd' => IsAsciiDigit(ch)
      case 'D' => !IsAsciiDigit(ch)
      case 'f' => ch == '\U{0C}'
      case 'n' => ch == '\n'
      case 'r' => ch == '\r'
      case 's' => IsAsciiWhiteSpace(ch)
      case 'S' => !IsAsciiWhiteSpace(ch)
      case 't' => ch == '\t'
      case 'v' => ch == '\U{0B}'
      case 'w' => IsAsciiWordChar(ch)
      case 'W' => !IsAsciiWordChar(ch)
      case _ => IsAsciiPunct(patternChar) && patternChar == ch
    else
      (patternChar == '.' && ch != '\n') || patternChar == ch
  }

  const DIGITS := "0123456789"
  const LOWER := "abcdefghijklmnopqrstuvwxyz"
  const UPPER := "ABCDEFGHIJKLMNOPQRSTUVWXYZ"

  lemma LowerCase(ch: char)
    ensures ch in LOWER <==> 'a' <= ch <= 'z'
  {
  }

  lemma UpperCase(ch: char)
    ensures ch in UPPER <==> 'A' <= ch <= 'Z'
  {
  }

  /** Printable ASCII that is no space, letter or digit. */
  predicate Punctuation(ch: char) {
    '!' <= ch <= '/' || ':' <= ch <= '@' || '[' <= ch <= '`' || '{' <= ch <= '~'
  }

  lemma PunctuationExact(ch: char)
    ensures IsAsciiPunct(ch) <==> Punctuation(ch)
  {
  }

  /** What may follow a backslash: punctuation and eleven letters. */
  lemma ValidEscapesExact(c: char)
    ensures IsValidEscape(c) <==> Punctuation(c) || c in ['d', 'D', 'f', 'n', 'r', 's', 'S', 't', 'v', 'w', 'W']
  {
    PunctuationExact(c);
  }

  /** What the escapes stand for, spelled out: the digits, the white space and the word
      characters, the complements under the capital letters, the five control characters, and
      any punctuation for itself. */
  lemma EscapeClasses(c: char, ch: char)
    requires IsValidEscape(c)
    ensures c == 'd' ==> (AtomMatchesChar(true, c, ch) <==> ch in DIGITS)
    ensures c == 'D' ==> (AtomMatchesChar(true, c, ch) <==> ch !in DIGITS)
    ensures c == 's' ==> (AtomMatchesChar(true, c, ch) <==> ch in [' ', '\U{0C}', '\n', '\r', '\t', '\U{0B}'])
    ensures c == 'S' ==> (AtomMatchesChar(true, c, ch) <==> ch !in [' ', '\U{0C}', '\n', '\r', '\t', '\U{0B}'])
    ensures c == 'w' ==> (AtomMatchesChar(true, c, ch) <==> ch in LOWER || ch in UPPER || ch in DIGITS || ch == '_')
    ensures c == 'W' ==> (AtomMatchesChar(true, c, ch) <==> ch !in LOWER && ch !in UPPER && ch !in DIGITS && ch != '_')
    ensures c == 'f' ==> (AtomMatchesChar(true, c, ch) <==> ch == '\U{0C}')
    ensures c == 'n' ==> (AtomMatchesChar(true, c, ch) <==> ch == '\n')
    ensures c == 'r' ==> (AtomMatchesChar(true, c, ch) <==> ch == '\r')
    ensures c == 't' ==> (AtomMatchesChar(true, c, ch) <==> ch == '\t')
    ensures c == 'v' ==> (AtomMatchesChar(true, c, ch) <==> ch == '\U{0B}')
    ensures Punctuation(c) ==> (AtomMatchesChar(true, c, ch) <==> ch == c)
  {
    LowerCase(ch);
    UpperCase(ch);
    PunctuationExact(c);
  }

  /** An unescaped character stands for itself, except that '.' stands for all but a newline. */
  lemma PlainAtoms(c: char, ch: char)
    ensures AtomMatchesChar(false, c, ch) <==> if c == '.' then ch != '\n' else ch == c
  {
  }

  // ---------------------------------------------------------------------------
  // Syntax trees and their language
  // ---------------------------------------------------------------------------

  datatype Quantifier = Once | Optional | Star | Plus

  datatype Item = Item(escaped: bool, c: char, quantifier: Quantifier) {
    predicate WellFormed() {
      if escaped then IsValidEscape(c)
      else c != '\0' && c != '\\' && !IsInSet(c, "^$?*+()[]{}|")
    }
  }

  datatype Pattern = Pattern(caret: bool, items: seq<Item>, dollar: bool) {
    predicate WellFormed() {
      AllWellFormed(items)
    }
  }

  predicate AllWellFormed(items: seq<Item>) {
    forall i | 0 <= i < |items| :: items[i].WellFormed()
  }

  function RenderQuantifier(q: Quantifier): string {
    match q
    case Once => ""
    case Optional => "?"
    case Star => "*"
    case Plus => "+"
  }

  function RenderItem(item: Item): string {
    (if item.escaped then "\\" else "") + [item.c] + RenderQuantifier(item.quantifier)
  }

  function RenderTail(items: seq<Item>, dollar: bool): string {
    if items == [] then (if dollar then "$" else "")
    else RenderItem(items[0]) + RenderTail(items[1..], dollar)
  }

  function Render(p: Pattern): string {
    (if p.caret then "^" else "") + RenderTail(p.items, p.dollar)
  }

  /** `t` is a run of characters that the item stands for. */
  predicate InItem(item: Item, t: string) {
    && (forall i | 0 <= i < |t| :: AtomMatchesChar(item.escaped, item.c, t[i]))
    && match item.quantifier
       case Once => |t| == 1
       case Optional => |t| <= 1
       case Star => true
       case Plus => |t| >= 1
  }

  /** The concatenation of the items' languages. */
  predicate InLanguage(items: seq<Item>, s: string) {
    if items == [] then s == ""
    else exists k | 0 <= k <= |s| :: InItem(items[0], s[..k]) && InLanguage(items[1..], s[k..])
  }

  /** A match that starts at the front of `s` and, with the anchor, also ends at its end. */
  ghost predicate MatchesHead(items: seq<Item>, dollar: bool, s: string) {
    exists j :: 0 <= j <= |s| && (dollar ==> j == |s|) && InLanguage(items, s[..j])
  }

  /** Some substring is in the language, placed as the anchors demand. */
  ghost predicate MatchesSubstring(p: Pattern, s: string) {
    exists i, j :: 0 <= i <= j <= |s| && (p.caret ==> i == 0) && (p.dollar ==> j == |s|)
                   && InLanguage(p.items, s[i..j])
  }

  lemma TakeDrop(s: string, j: nat, k: nat)
    requires k <= j <= |s|
    ensures s[..j][..k] == s[..k] && s[..j][k..] == s[k..][..j - k]
  {
    var a, b := s[..j][k..], s[k..][..j - k];
    assert |a| == |b| && forall i | 0 <= i < |a| :: a[i] == s[k + i] == b[i];
  }

  lemma {:induction false} MatchesHeadSplit(items: seq<Item>, dollar: bool, s: string)
    requires items != []
    ensures MatchesHead(items, dollar, s) <==>
            exists k :: 0 <= k <= |s| && InItem(items[0], s[..k]) && MatchesHead(items[1..], dollar, s[k..])
  {
    if MatchesHead(items, dollar, s) {
      var j :| 0 <= j <= |s| && (dollar ==> j == |s|) && InLanguage(items, s[..j]);
      var k :| 0 <= k <= j && InItem(items[0], s[..j][..k]) && InLanguage(items[1..], s[..j][k..]);
      TakeDrop(s, j, k);
    }
    if k :| 0 <= k <= |s| && InItem(items[0], s[..k]) && MatchesHead(items[1..], dollar, s[k..]) {
      var j :| 0 <= j <= |s[k..]| && (dollar ==> j == |s[k..]|) && InLanguage(items[1..], s[k..][..j]);
      TakeDrop(s, k + j, k);
      assert InLanguage(items, s[..k + j]);
    }
  }

  // ---------------------------------------------------------------------------
  // Validation
  // ---------------------------------------------------------------------------

  /** The validator's verdict on the rest of a regex. */
  predicate ValidTail(s: string, atStart: bool, prevRepeatable: bool) {
    if s == "" then true
    else if s[0] == '\\' then
      |s| >= 2 && IsValidEscape(s[1]) && ValidTail(s[2..], false, true)
    else
      && !(s[0] == '^' && !atStart)
      && !(s[0] == '$' && |s| > 1)
      && !IsInSet(s[0], "()[]{}|")
      && !(IsRepeat(s[0]) && !prevRepeatable)
      && ValidTail(s[1..], false, !IsInSet(s[0], "^$?*+"))
  }

  function CharAt(s: string, i: nat): char {
    if i < |s| then s[i] else '\0'
  }

  method ValidateRegex(regex: Option<CString>) returns (valid: bool)
    ensures valid <==> regex.Some? && exists p: Pattern :: p.WellFormed() && Render(p) == regex.value
  {
    if regex.None? {
      return false;
    }
    var r := regex.value;
    valid := Scan(r);
    if valid {
      var p := ParseRegex(r);
      assert p.WellFormed() && Render(p) == r;
    }
    forall p: Pattern | p.WellFormed() && Render(p) == r
      ensures valid
    {
      RenderedIsValid(p);
    }
  }

  /** The scanning loop: it goes on after an error, except at a dangling backslash. */
  method Scan(regex: CString) returns (valid: bool)
    ensures valid == ValidTail(regex, true, false)
  {
    valid := true;
    var prevRepeatable := false;
    var i := 0;
    assert regex[0..] == regex;
    while CharAt(regex, i) != '\0'
      invariant 0 <= i <= |regex|
      invariant ValidTail(regex, true, false) == (valid && ValidTail(regex[i..], i == 0, prevRepeatable))
      decreases |regex| - i
    {
      ghost var rest := regex[i..];
      if regex[i] == '\\' {
        i := i + 1;
        if CharAt(regex, i) == '\0' {
          return false;
        }
        if !IsValidEscape(regex[i]) {
          valid := false;
        }
        prevRepeatable := true;
        assert rest[2..] == regex[i + 1..];
      } else {
        var ch := regex[i];
        if ch == '^' && i > 0 {
          valid := false;
        } else if ch == '$' && CharAt(regex, i + 1) != '\0' {
          valid := false;
        } else if IsInSet(ch, "()[]{}|") {
          valid := false;
        } else if IsRepeat(ch) && !prevRepeatable {
          valid := false;
        }
        prevRepeatable := !IsInSet(ch, "^$?*+");
        assert rest[1..] == regex[i + 1..];
      }
      i := i + 1;
    }
  }

  /** The quantifier in front of a valid text, if there is one. */
  lemma {:induction false} ParseQuantifier(rest: CString) returns (q: Quantifier, later: CString)
    requires ValidTail(rest, false, true)
    ensures rest == RenderQuantifier(q) + later && ValidTail(later, false, false)
  {
    q := if rest == "" then Once else QuantifierOf(rest[0]);
    later := if q == Once then rest else rest[1..];
  }

  /** The item at the front of a valid text. */
  lemma {:induction false} ParseItem(s: CString) returns (item: Item, later: CString)
    requires ValidTail(s, false, false) && s != "" && s != "$"
    ensures item.WellFormed() && s == RenderItem(item) + later && ValidTail(later, false, false) && |later| < |s|
  {
    var escaped := s[0] == '\\';
    var c := if escaped then s[1] else s[0];
    var rest: CString := if escaped then s[2..] else s[1..];
    var q;
    q, later := ParseQuantifier(rest);
    item := Item(escaped, c, q);
    var front := (if escaped then "\\" else "") + [c];
    assert s == front + rest;
    Associative(front, RenderQuantifier(q), later);
  }

  lemma {:induction false} ParseTail(s: CString) returns (items: seq<Item>, dollar: bool)
    requires ValidTail(s, false, false)
    ensures AllWellFormed(items)
    ensures RenderTail(items, dollar) == s
    decreases |s|
  {
    if s == "" || s == "$" {
      return [], s == "$";
    }
    var item, later := ParseItem(s);
    items, dollar := ParseTail(later);
    assert ([item] + items)[1..] == items;
    items := [item] + items;
  }

  function QuantifierOf(ch: char): Quantifier {
    if ch == '?' then Optional else if ch == '*' then Star else if ch == '+' then Plus else Once
  }

  lemma ParseRegex(regex: CString) returns (p: Pattern)
    requires ValidTail(regex, true, false)
    ensures p.WellFormed() && Render(p) == regex
  {
    var caret := regex != "" && regex[0] == '^';
    var tail: CString := if caret then regex[1..] else regex;
    var items, dollar := ParseTail(tail);
    p := Pattern(caret, items, dollar);
  }

  lemma {:induction false} ValidAfterAtom(item: Item, rest: string, prevRepeatable: bool)
    requires item.WellFormed()
    requires ValidTail(rest, false, true)
    ensures ValidTail((if item.escaped then "\\" else "") + [item.c] + rest, false, prevRepeatable)
  {
    if item.escaped {
      assert ("\\" + [item.c] + rest)[2..] == rest;
    } else {
      assert ("" + [item.c] + rest)[1..] == rest;
    }
  }

  lemma {:induction false} ValidAfterQuantifier(q: Quantifier, rest: string)
    requires ValidTail(rest, false, q == Once)
    ensures ValidTail(RenderQuantifier(q) + rest, false, true)
  {
    if q == Once {
      assert RenderQuantifier(q) + rest == rest;
    } else {
      assert (RenderQuantifier(q) + rest)[1..] == rest;
    }
  }

  lemma {:induction false} RenderedTailIsValid(items: seq<Item>, dollar: bool, prevRepeatable: bool)
    requires AllWellFormed(items)
    ensures ValidTail(RenderTail(items, dollar), false, prevRepeatable)
    decreases |items|
  {
    if items != [] {
      RenderedTailIsValid(items[1..], dollar, items[0].quantifier == Once);
      RenderedItemIsValid(items[0], RenderTail(items[1..], dollar), prevRepeatable);
    }
  }

  lemma {:induction false} RenderedItemIsValid(item: Item, later: string, prevRepeatable: bool)
    requires item.WellFormed()
    requires ValidTail(later, false, item.quantifier == Once)
    ensures ValidTail(RenderItem(item) + later, false, prevRepeatable)
  {
    var atom := (if item.escaped then "\\" else "") + [item.c];
    ValidAfterQuantifier(item.quantifier, later);
    ValidAfterAtom(item, RenderQuantifier(item.quantifier) + later, prevRepeatable);
    Associative(atom, RenderQuantifier(item.quantifier), later);
  }

  lemma Associative(a: string, b: string, c: string)
    ensures a + b + c == a + (b + c)
  {
  }

  lemma RenderedIsValid(p: Pattern)
    requires p.WellFormed()
    ensures ValidTail(Render(p), true, false)
  {
    RenderedTailIsValid(p.items, p.dollar, false);
    var tail := RenderTail(p.items, p.dollar);
    if p.caret {
      assert Render(p)[1..] == tail;
    } else {
      assert Render(p) == tail;
    }
  }

  // ---------------------------------------------------------------------------
  // Matching
  // ---------------------------------------------------------------------------

  /** The regex still to be matched is the rendering of `items` and the end anchor. */
  ghost predicate Renders(regex: string, items: seq<Item>, dollar: bool) {
    AllWellFormed(items) && regex == RenderTail(items, dollar)
  }

  lemma {:induction false} TailStart(items: seq<Item>, dollar: bool)
    requires AllWellFormed(items)
    ensures !IsRepeat(CharAt(RenderTail(items, dollar), 0))
    ensures RenderTail(items, dollar) == "" <==> items == [] && !dollar
    ensures CharAt(RenderTail(items, dollar), 0) == '$' <==> items == [] && dollar
  {
  }

  /** The characters of an item in front of any text. */
  lemma ItemText(item: Item, later: string)
    ensures var text := RenderItem(item) + later;
            var atom := if item.escaped then text[1..] else text;
            && text != "" && text[0] == (if item.escaped then '\\' else item.c)
            && atom != "" && atom[0] == item.c
            && (if item.quantifier == Once then atom[1..] == later
                else |atom| >= 2 && [atom[1]] == RenderQuantifier(item.quantifier) && atom[2..] == later)
  {
    var text := RenderItem(item) + later;
    var atom := if item.escaped then text[1..] else text;
    assert atom == [item.c] + RenderQuantifier(item.quantifier) + later;
  }

  /** What the matcher reads off the front of a non-empty rendering. */
  lemma {:induction false} HeadOfRendering(regex: string, items: seq<Item>, dollar: bool)
    requires Renders(regex, items, dollar) && items != []
    ensures var item := items[0];
            var atom := if item.escaped then regex[1..] else regex;
            && regex != ""
            && (regex[0] == '\\' <==> item.escaped)
            && atom != "" && atom[0] == item.c
            && (IsRepeat(CharAt(atom, 1)) <==> item.quantifier != Once)
            && (if item.quantifier == Once then Renders(atom[1..], items[1..], dollar)
                else |atom| >= 2 && [atom[1]] == RenderQuantifier(item.quantifier)
                     && Renders(atom[2..], items[1..], dollar))
  {
    ItemText(items[0], RenderTail(items[1..], dollar));
    TailStart(items[1..], dollar);
  }

  lemma {:induction false} RenderTailInjective(items: seq<Item>, dollar: bool, items': seq<Item>, dollar': bool)
    requires AllWellFormed(items) && AllWellFormed(items')
    requires RenderTail(items, dollar) == RenderTail(items', dollar')
    ensures items == items' && dollar == dollar'
    decreases |items|
  {
    TailStart(items, dollar);
    TailStart(items', dollar');
    if items != [] && items' != [] {
      var regex := RenderTail(items, dollar);
      HeadOfRendering(regex, items, dollar);
      HeadOfRendering(regex, items', dollar');
      assert items[0] == items'[0];
      RenderTailInjective(items[1..], dollar, items'[1..], dollar');
    }
  }

  /** A regex has only one tree, so its language is well defined. */
  lemma RenderInjective(p: Pattern, q: Pattern)
    requires p.WellFormed() && q.WellFormed()
    requires Render(p) == Render(q)
    ensures p == q
  {
    CaretStart(p);
    CaretStart(q);
    RenderTailInjective(p.items, p.dollar, q.items, q.dollar);
  }

  /** Grows the run of matched characters until the tail matches. The run length is bounded
      by 1 for '?' and by the largest size_t otherwise. */
  method MatchRepetitionAndRegexAtHead(escaped: bool, c: char, repeat: char, regex: string, str: CString,
                                       ghost items: seq<Item>, ghost dollar: bool, ghost q: Quantifier)
    returns (matched: bool)
    requires Renders(regex, items, dollar)
    requires q != Once && [repeat] == RenderQuantifier(q)
    requires |str| < SIZE_MAX
    ensures matched <==>
            exists k :: 0 <= k <= |str| && InItem(Item(escaped, c, q), str[..k]) && MatchesHead(items, dollar, str[k..])
    decreases |regex|, 1
  {
    var minCount := if repeat == '+' then 1 else 0;
    var maxCount := if repeat == '?' then 1 else SIZE_MAX - 1;
    var i := 0;
    while i <= maxCount
      invariant 0 <= i <= |str|
      invariant i <= maxCount + 1
      invariant forall k | 0 <= k < i :: AtomMatchesChar(escaped, c, str[k])
      invariant forall k | 0 <= k < i ::
                  !(InItem(Item(escaped, c, q), str[..k]) && MatchesHead(items, dollar, str[k..]))
      decreases maxCount + 1 - i
    {
      if i >= minCount {
        var tail := MatchRegexAtHead(regex, str[i..], items, dollar);
        if tail {
          assert InItem(Item(escaped, c, q), str[..i]);
          return true;
        }
      }
      if CharAt(str, i) == '\0' || !AtomMatchesChar(escaped, c, str[i]) {
        assert forall k | i < k <= |str| :: !InItem(Item(escaped, c, q), str[..k]) by {
          forall k | i < k <= |str|
            ensures !InItem(Item(escaped, c, q), str[..k])
          {
            assert str[..k][i] == str[i];
          }
        }
        return false;
      }
      i := i + 1;
    }
    return false;
  }

  /** Decides whether the regex matches a prefix of str. */
  method MatchRegexAtHead(regex: string, str: CString, ghost items: seq<Item>, ghost dollar: bool)
    returns (matched: bool)
    requires Renders(regex, items, dollar)
    requires |str| < SIZE_MAX
    ensures matched <==> MatchesHead(items, dollar, str)
    decreases |regex|, 0
  {
    TailStart(items, dollar);
    if CharAt(regex, 0) == '\0' {
      assert str[..0] == "";
      return true;
    }
    if regex[0] == '$' {
      assert str == "" ==> InLanguage(items, str[..0]);
      return CharAt(str, 0) == '\0';
    }
    HeadOfRendering(regex, items, dollar);
    MatchesHeadSplit(items, dollar, str);
    var escaped := regex[0] == '\\';
    var atom := if escaped then regex[1..] else regex;
    if IsRepeat(CharAt(atom, 1)) {
      matched := MatchRepetitionAndRegexAtHead(escaped, atom[0], atom[1], atom[2..], str,
                                               items[1..], dollar, items[0].quantifier);
    } else {
      if CharAt(str, 0) == '\0' || !AtomMatchesChar(escaped, atom[0], str[0]) {
        assert forall k | 0 <= k <= |str| && InItem(items[0], str[..k]) :: str[..k][0] == str[0];
        return false;
      }
      matched := MatchRegexAtHead(atom[1..], str[1..], items[1..], dollar);
      assert InItem(items[0], str[..1]);
    }
  }

  /** Decides whether the regex matches some substring of str. */
  method MatchRegexAnywhere(regex: Option<CString>, str: Option<CString>, ghost p: Pattern)
    returns (matched: bool)
    requires regex.Some? ==> p.WellFormed() && regex.value == Render(p)
    requires str.Some? ==> |str.value| < SIZE_MAX
    ensures matched <==> regex.Some? && str.Some? && MatchesSubstring(p, str.value)
  {
    if regex.None? || str.None? {
      return false;
    }
    var r, s := regex.value, str.value;
    TailStart(p.items, p.dollar);
    CaretStart(p);
    if CharAt(r, 0) == '^' {
      matched := MatchRegexAtHead(r[1..], s, p.items, p.dollar);
      MatchesFromFront(p, s);
      return;
    }
    var i := 0;
    while true
      invariant 0 <= i <= |s|
      invariant forall k | 0 <= k < i :: !MatchesHead(p.items, p.dollar, s[k..])
      decreases |s| - i
    {
      var here := MatchRegexAtHead(r, s[i..], p.items, p.dollar);
      if here {
        MatchesFrom(p, s, i);
        return true;
      }
      if CharAt(s, i) == '\0' {
        break;
      }
      i := i + 1;
    }
    MatchesSomewhere(p, s);
    return false;
  }

  lemma CaretStart(p: Pattern)
    requires p.WellFormed()
    ensures CharAt(Render(p), 0) == '^' <==> p.caret
    ensures if p.caret then Render(p)[1..] == RenderTail(p.items, p.dollar)
            else Render(p) == RenderTail(p.items, p.dollar)
  {
  }

  lemma MatchesFrom(p: Pattern, s: string, i: nat)
    requires i <= |s| && (p.caret ==> i == 0)
    requires MatchesHead(p.items, p.dollar, s[i..])
    ensures MatchesSubstring(p, s)
  {
    var j :| 0 <= j <= |s[i..]| && (p.dollar ==> j == |s[i..]|) && InLanguage(p.items, s[i..][..j]);
    assert s[i..][..j] == s[i..i + j];
  }

  lemma MatchesSomewhere(p: Pattern, s: string)
    ensures MatchesSubstring(p, s) ==> exists i :: 0 <= i <= |s| && MatchesHead(p.items, p.dollar, s[i..])
  {
    if MatchesSubstring(p, s) {
      var i, j :| 0 <= i <= j <= |s| && (p.caret ==> i == 0) && (p.dollar ==> j == |s|) && InLanguage(p.items, s[i..j]);
      assert s[i..j] == s[i..][..j - i];
    }
  }

  lemma MatchesFromFront(p: Pattern, s: string)
    requires p.caret
    ensures MatchesSubstring(p, s) <==> MatchesHead(p.items, p.dollar, s)
  {
    if MatchesHead(p.items, p.dollar, s) {
      assert s[0..] == s;
      MatchesFrom(p, s, 0);
    }
    if MatchesSubstring(p, s) {
      var i, j :| 0 <= i <= j <= |s| && (p.caret ==> i == 0) && (p.dollar ==> j == |s|) && InLanguage(p.items, s[i..j]);
      assert s[0..j] == s[..j];
    }
  }

  // ---------------------------------------------------------------------------
  // The RE class
  // ---------------------------------------------------------------------------

  /** The last character is a '$' that stands for itself. */
  predicate EndsInEscapedDollar(p: Pattern) {
    !p.dollar && p.items != [] && p.items[|p.items| - 1] == Item(true, '$', Once)
  }

  /** The tree of the pattern that Init builds for full matches: anchored at both ends,
      except that an escaped '$' at the end is taken for the anchor. */
  function FullPattern(p: Pattern): Pattern {
    Pattern(true, p.items, !EndsInEscapedDollar(p))
  }

  lemma {:induction false} RenderTailDollar(items: seq<Item>)
    ensures RenderTail(items, true) == RenderTail(items, false) + "$"
    decreases |items|
  {
    if items != [] {
      RenderTailDollar(items[1..]);
    }
  }

  lemma {:induction false} RenderTailLast(items: seq<Item>)
    requires AllWellFormed(items)
    ensures var s := RenderTail(items, false);
            (s != "" && s[|s| - 1] == '$') <==> items != [] && items[|items| - 1] == Item(true, '$', Once)
    decreases |items|
  {
    if |items| == 1 {
      assert RenderTail(items, false) == RenderItem(items[0]);
    } else if |items| > 1 {
      RenderTailLast(items[1..]);
      TailStart(items[1..], false);
      assert items[1..][|items[1..]| - 1] == items[|items| - 1];
    }
  }

  function Prefixed(regex: string): string {
    (if CharAt(regex, 0) != '^' then "^" else "") + regex
  }

  function Suffix(regex: string): string {
    if |regex| == 0 || regex[|regex| - 1] != '$' then "$" else ""
  }

  /** What Init writes, spelled on strings. */
  function FullPatternText(regex: string): string {
    Prefixed(regex) + Suffix(regex)
  }

  lemma {:induction false} PrefixRendered(p: Pattern)
    requires p.WellFormed()
    ensures Prefixed(Render(p)) == "^" + RenderTail(p.items, p.dollar)
  {
    CaretStart(p);
  }

  lemma {:induction false} SuffixOfRender(p: Pattern)
    ensures Suffix(Render(p)) == Suffix(RenderTail(p.items, p.dollar))
  {
  }

  lemma SuffixAfterDollar(text: string)
    ensures Suffix(text + "$") == "" && text + "$" + "" == text + "$"
  {
  }

  lemma {:induction false} SuffixWithDollar(items: seq<Item>)
    ensures var s := RenderTail(items, true); s + Suffix(s) == s
  {
    RenderTailDollar(items);
    SuffixAfterDollar(RenderTail(items, false));
  }

  lemma {:induction false} SuffixWithoutDollar(items: seq<Item>)
    requires AllWellFormed(items)
    ensures var s, escaped := RenderTail(items, false), items != [] && items[|items| - 1] == Item(true, '$', Once);
            s + Suffix(s) == RenderTail(items, !escaped)
  {
    var s := RenderTail(items, false);
    RenderTailLast(items);
    RenderTailDollar(items);
    assert s + "" == s;
  }

  lemma {:induction false} SuffixRendered(p: Pattern)
    requires p.WellFormed()
    ensures var s := RenderTail(p.items, p.dollar); s + Suffix(s) == RenderTail(p.items, !EndsInEscapedDollar(p))
  {
    if p.dollar {
      SuffixWithDollar(p.items);
    } else {
      SuffixWithoutDollar(p.items);
    }
  }

  lemma {:induction false} FullTextOfRender(p: Pattern)
    requires p.WellFormed()
    ensures var s := RenderTail(p.items, p.dollar); FullPatternText(Render(p)) == "^" + (s + Suffix(s))
  {
    var s := RenderTail(p.items, p.dollar);
    PrefixRendered(p);
    SuffixOfRender(p);
    Associative("^", s, Suffix(s));
  }

  lemma RenderFull(p: Pattern)
    ensures Render(FullPattern(p)) == "^" + RenderTail(p.items, !EndsInEscapedDollar(p))
  {
  }

  lemma {:induction false} FullPatternRendered(p: Pattern)
    requires p.WellFormed()
    ensures FullPatternText(Render(p)) == Render(FullPattern(p))
  {
    FullTextOfRender(p);
    SuffixRendered(p);
    RenderFull(p);
  }

  /** memcpy of the regex behind the first n characters. */
  method CopyInto(buffer: array<char>, n: nat, regex: string)
    requires n + |regex| <= buffer.Length
    modifies buffer
    ensures buffer[..n + |regex|] == old(buffer[..n]) + regex
  {
    ghost var front := buffer[..n];
    for i := 0 to |regex|
      invariant buffer[..n + i] == front + regex[..i]
    {
      buffer[n + i] := regex[i];
      assert buffer[..n + i + 1] == buffer[..n + i] + [regex[i]];
    }
    assert regex[..|regex|] == regex;
  }

  /** Init's copying into a zero-terminated buffer of len + 3 bytes. */
  method BuildFullPattern(regex: CString) returns (text: CString)
    ensures text == FullPatternText(regex)
  {
    var len := |regex|;
    var buffer := new char[len + 3](_ => '\0');
    var n := 0;
    if CharAt(regex, 0) != '^' {
      buffer[n] := '^';
      n := n + 1;
    }
    CopyInto(buffer, n, regex);
    n := n + len;
    assert buffer[..n] == Prefixed(regex);
    if len == 0 || regex[len - 1] != '$' {
      buffer[n] := '$';
      assert buffer[..n + 1] == buffer[..n] + "$";
      n := n + 1;
    }
    buffer[n] := '\0';
    assert buffer[..n] == FullPatternText(regex);
    text := buffer[..n];
  }

  class RE {
    var pattern: Option<CString>
    var fullPattern: Option<CString>
    var isValid: bool

    ghost predicate Valid()
      reads this
    {
      && (isValid <==> pattern.Some? && exists p: Pattern :: p.WellFormed() && Render(p) == pattern.value)
      && (isValid ==> fullPattern == Some(FullPatternText(pattern.value)))
    }

    /** The tree of the regex. */
    ghost function Tree(): (p: Pattern)
      requires Valid() && isValid
      reads this
      ensures p.WellFormed() && Some(Render(p)) == pattern
    {
      var p: Pattern :| p.WellFormed() && Render(p) == pattern.value;
      p
    }

    constructor (regex: Option<CString>)
      ensures Valid()
      ensures pattern == regex
    {
      pattern, fullPattern := regex, None;
      var valid := ValidateRegex(regex);
      isValid := valid;
      if valid {
        var text := BuildFullPattern(regex.value);
        fullPattern := Some(text);
      }
    }

    /** Matches a substring of str (including str itself). */
    method PartialMatch(str: Option<CString>) returns (matched: bool)
      requires Valid()
      requires str.Some? ==> |str.value| < SIZE_MAX
      ensures matched <==> isValid && str.Some? && MatchesSubstring(Tree(), str.value)
    {
      if !isValid {
        return false;
      }
      matched := MatchRegexAnywhere(pattern, str, Tree());
    }

    method FullMatch(str: Option<CString>) returns (matched: bool)
      requires Valid()
      requires str.Some? ==> |str.value| < SIZE_MAX
      ensures matched <==> isValid && str.Some? && MatchesSubstring(FullPattern(Tree()), str.value)
      ensures isValid && !EndsInEscapedDollar(Tree()) ==>
                (matched <==> str.Some? && InLanguage(Tree().items, str.value))
    {
      if !isValid {
        return false;
      }
      FullPatternRendered(Tree());
      matched := MatchRegexAnywhere(fullPattern, str, FullPattern(Tree()));
      if str.Some? && !EndsInEscapedDollar(Tree()) {
        BothAnchors(Tree().items, str.value);
      }
    }
  }

  lemma BothAnchors(items: seq<Item>, s: string)
    ensures MatchesSubstring(Pattern(true, items, true), s) <==> InLanguage(items, s)
  {
    assert s[0..|s|] == s;
  }

  // ---------------------------------------------------------------------------
  // When a full match means the whole string
  // ---------------------------------------------------------------------------

  /** A character that the item's atom stands for. */
  lemma AtomInhabited(item: Item) returns (ch: char)
    requires item.WellFormed()
    ensures ch != '\0' && AtomMatchesChar(item.escaped, item.c, ch)
  {
    if item.escaped {
      ch := match item.c
        case 'd' => '0'
        case 'D' => 'a'
        case 'f' => '\U{0C}'
        case 'n' => '\n'
        case 'r' => '\r'
        case 's' => ' '
        case 'S' => 'a'
        case 't' => '\t'
        case 'v' => '\U{0B}'
        case 'w' => 'a'
        case 'W' => ' '
        case _ => item.c;
    } else {
      ch := item.c;
    }
  }

  lemma {:induction false} LanguageInhabited(items: seq<Item>) returns (s: CString)
    requires AllWellFormed(items)
    ensures InLanguage(items, s)
    decreases |items|
  {
    if items == [] {
      return "";
    }
    var ch := AtomInhabited(items[0]);
    var later := LanguageInhabited(items[1..]);
    s := [ch] + later;
    assert s[..1] == [ch] && s[1..] == later;
    assert InItem(items[0], s[..1]);
  }

  lemma {:induction false} LanguageEndsInDollar(items: seq<Item>, s: string)
    requires items != [] && items[|items| - 1] == Item(true, '$', Once)
    requires InLanguage(items, s)
    ensures s != "" && s[|s| - 1] == '$'
    decreases |items|
  {
    var k :| 0 <= k <= |s| && InItem(items[0], s[..k]) && InLanguage(items[1..], s[k..]);
    if |items| == 1 {
      assert s[..k] == s;
    } else {
      LanguageEndsInDollar(items[1..], s[k..]);
    }
  }

  lemma {:induction false} PrefixAccepted(items: seq<Item>, w: string, x: string)
    requires InLanguage(items, w)
    ensures MatchesSubstring(Pattern(true, items, false), w + x)
  {
    assert (w + x)[0..|w|] == w;
  }

  lemma {:induction false} OutsideLanguage(items: seq<Item>, w: CString) returns (s: CString)
    requires items != [] && items[|items| - 1] == Item(true, '$', Once)
    ensures s == w + "a" && !InLanguage(items, s)
  {
    s := w + "a";
    if InLanguage(items, s) {
      LanguageEndsInDollar(items, s);
    }
  }

  /** With the anchor missing, some string outside the language is accepted. */
  lemma {:induction false} EscapedDollarAcceptsMore(p: Pattern) returns (s: CString)
    requires p.WellFormed() && EndsInEscapedDollar(p)
    ensures MatchesSubstring(FullPattern(p), s) && !InLanguage(p.items, s)
  {
    var w := LanguageInhabited(p.items);
    s := OutsideLanguage(p.items, w);
    PrefixAccepted(p.items, w, "a");
  }

  /** FullMatch accepts exactly the strings of the language if and only if the regex does not
      end in an escaped '$': Init takes such a '$' for the end anchor and adds none. */
  lemma {:induction false} FullMatchExact(p: Pattern)
    requires p.WellFormed()
    ensures (forall s: CString :: MatchesSubstring(FullPattern(p), s) <==> InLanguage(p.items, s))
            <==> !EndsInEscapedDollar(p)
  {
    if EndsInEscapedDollar(p) {
      var s := EscapedDollarAcceptsMore(p);
    } else {
      forall s: CString
        ensures MatchesSubstring(FullPattern(p), s) <==> InLanguage(p.items, s)
      {
        BothAnchors(p.items, s);
      }
    }
  }

  // ---------------------------------------------------------------------------
  // Plain text
  // ---------------------------------------------------------------------------

  /** Text without a character that means anything special in a regex. */
  predicate Plain(text: string) {
    forall i | 0 <= i < |text| :: text[i] !in ['\0', '\\', '^', '$', '?', '*', '+', '(', ')', '[', ']', '{', '}', '|', '.']
  }

  function Literals(text: string): seq<Item> {
    if text == "" then [] else [Item(false, text[0], Once)] + Literals(text[1..])
  }

  lemma {:induction false} LiteralsRendered(text: string)
    requires Plain(text)
    ensures AllWellFormed(Literals(text)) && RenderTail(Literals(text), false) == text
  {
    if text != "" {
      LiteralsRendered(text[1..]);
      var items := Literals(text);
      assert items[1..] == Literals(text[1..]);
      assert RenderItem(items[0]) == [text[0]];
      assert text == [text[0]] + text[1..];
    }
  }

  /** The language of plain text is the text. */
  lemma {:induction false} LiteralsLanguage(text: string, s: string)
    requires Plain(text)
    ensures InLanguage(Literals(text), s) <==> s == text
  {
    var items := Literals(text);
    if text != "" {
      assert items[1..] == Literals(text[1..]);
      forall k | 0 <= k <= |s|
        ensures InItem(items[0], s[..k]) <==> k == 1 && s[0] == text[0]
        ensures InLanguage(items[1..], s[k..]) <==> s[k..] == text[1..]
      {
        if k == 1 {
          PlainAtoms(text[0], s[0]);
        }
        LiteralsLanguage(text[1..], s[k..]);
      }
      if s == text {
        assert InItem(items[0], s[..1]) && InLanguage(items[1..], s[1..]);
      }
      if InLanguage(items, s) {
        var k :| 0 <= k <= |s| && InItem(items[0], s[..k]) && InLanguage(items[1..], s[k..]);
        assert s == [s[0]] + s[1..];
      }
    }
  }

  /** A regex without special characters is valid, and fully matches exactly its own text. */
  lemma PlainRegexMatchesItself(re: RE, text: string, s: string)
    requires re.Valid() && re.pattern == Some(text) && Plain(text)
    ensures re.isValid && !EndsInEscapedDollar(re.Tree())
    ensures InLanguage(re.Tree().items, s) <==> s == text
  {
    var p := Pattern(false, Literals(text), false);
    LiteralsRendered(text);
    assert Render(p) == text;
    RenderInjective(p, re.Tree());
    LiteralsLanguage(text, s);
    if EndsInEscapedDollar(p) {
      LiteralsPlain(text);
    }
  }

  lemma {:induction false} LiteralsPlain(text: string)
    ensures forall i | 0 <= i < |Literals(text)| :: !Literals(text)[i].escaped
  {
    if text != "" {
      LiteralsPlain(text[1..]);
    }
  }
}
