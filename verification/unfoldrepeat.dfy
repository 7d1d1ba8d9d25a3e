/** `ExpressionMatcher.UnFoldRepeat` of the older parser
    (bin/GDBWrapper/GDBTextParser.js): gdb abbreviates a run of equal array
    elements as `{X <repeats N times>}`, and the wrapper writes the run out as
    N copies of X between brackets.

    The pattern `\{\s*.+\s*<repeats\s*[0-9]+\s*times>\}` is greedy: its match
    opens at the first `{` of the text and closes at the last
    `<repeats N times>}`, so the text has at most one match. Inside the match
    a backward scan over the captured body finds the innermost `{` left open:
    what follows it is the repeated element, what precedes it is kept. */
module UnfoldRepeat {
  import opened JsText

  // ---------------------------------------------------------------------------
  // Locating the match

  const RepeatsWord: string := "<repeats"
  const TimesWord: string := "times>}"

  /** The end of the longest run from `i` on whose characters satisfy `p`. */
  function RunEnd(s: string, i: nat, p: char -> bool): (r: nat)
    requires i <= |s|
    ensures i <= r <= |s|
    ensures forall k :: i <= k < r ==> p(s[k])
    ensures r < |s| ==> !p(s[r])
    decreases |s| - i
  {
    if i == |s| || !p(s[i]) then i else RunEnd(s, i + 1, p)
  }

  /** `<repeats\s*[0-9]+\s*times>\}` at position `p`: the digits of the
      count and the position just after the closing brace. */
  function RepeatTailAt(s: string, p: nat): (r: Option<(string, nat)>)
    requires p <= |s|
    ensures r.Some? ==> p < r.value.1 <= |s| && s[p] == '<'
  {
    if !OccursAt(s, RepeatsWord, p) then None
    else
      var e1 := RunEnd(s, p + |RepeatsWord|, IsSpace);
      var e2 := RunEnd(s, e1, IsDigit);
      var e3 := RunEnd(s, e2, IsSpace);
      if e1 < e2 && OccursAt(s, TimesWord, e3) then Some((s[e1..e2], e3 + |TimesWord|))
      else None
  }

  /** The last position before `n` that satisfies `at`. */
  function LastBelow(n: nat, at: nat -> bool): (r: Option<nat>)
    ensures r.Some? ==> r.value < n && at(r.value)
    ensures r.Some? ==> forall q :: r.value < q < n ==> !at(q)
    ensures r.None? ==> forall q :: 0 <= q < n ==> !at(q)
  {
    if n == 0 then None
    else if at(n - 1) then Some(n - 1)
    else LastBelow(n - 1, at)
  }

  /** Where a repeat tail starts in `s`. */
  function TailStarts(s: string): nat -> bool {
    (q: nat) => q <= |s| && RepeatTailAt(s, q).Some?
  }

  /** The last position before `n` where a repeat tail starts. */
  function LastTail(s: string, n: nat): (r: Option<nat>)
    requires n <= |s|
    ensures r.Some? ==> r.value < n && RepeatTailAt(s, r.value).Some?
    ensures r.Some? ==> forall q :: r.value < q < n ==> RepeatTailAt(s, q).None?
    ensures r.None? ==> forall q :: 0 <= q < n ==> RepeatTailAt(s, q).None?
  {
    var r := LastBelow(n, TailStarts(s));
    assert forall q :: 0 <= q < n ==> (TailStarts(s)(q) <==> RepeatTailAt(s, q).Some?);
    r
  }

  /** Where the match lies: its opening brace, the start of the captured
      body, the start of the tail, the count and the end of the match. */
  datatype RepeatSite = RepeatSite(start: nat, body: nat, tail: nat, count: nat, end: nat)

  predicate ValidSite(s: string, m: RepeatSite) {
    m.start < m.body < m.tail < m.end <= |s| && s[m.start] == '{'
  }

  /** The match, if any: the first `{` with at least one character between
      it and the last tail; the white space after the brace goes to `\s*`
      as long as the body keeps a character. */
  function RepeatMatch(s: string): (r: Option<RepeatSite>)
    ensures r.Some? ==> ValidSite(s, r.value)
  {
    match LastTail(s, |s|)
    case None => None
    case Some(p) =>
      match IndexOf(s, '{')
      case None => None
      case Some(i) =>
        if i + 2 > p then None
        else
          var w0 := RunEnd(s, i + 1, IsSpace) - (i + 1);
          var w := if w0 < p - i - 2 then w0 else p - i - 2;
          var t := RepeatTailAt(s, p).value;
          Some(RepeatSite(i, i + 1 + w, p, RadixValue(t.0, 10), t.1))
  }

  // ---------------------------------------------------------------------------
  // The backward scan

  /** Scanning `g[..n]` from the right with `depth` closing braces still
      open: the first `{` met at depth 0. */
  function BorderFrom(g: string, n: nat, depth: nat): (r: Option<nat>)
    requires n <= |g|
    ensures r.Some? ==> r.value < n && g[r.value] == '{'
    ensures '{' !in g[..n] ==> r.None?
  {
    if n == 0 then None
    else
      var c := g[n - 1];
      assert g[..n - 1] == g[..n][..n - 1];
      if c == '{' then (if depth == 0 then Some(n - 1) else BorderFrom(g, n - 1, depth - 1))
      else if c == '}' then BorderFrom(g, n - 1, depth + 1)
      else BorderFrom(g, n - 1, depth)
  }

  /** The innermost `{` of the body left open. */
  function Border(g: string): Option<nat> {
    BorderFrom(g, |g|, 0)
  }

  /** The repeated element: what follows the open brace, or the whole body. */
  function Element(g: string): string {
    match Border(g)
    case None => g
    case Some(b) => g[b + 1..]
  }

  /** The backward `for` loop with its brace stack: it returns the open
      brace it stopped at and the characters it collected. */
  method ScanBody(g: string) returns (border: Option<nat>, content: string)
    ensures border == Border(g)
    ensures content == Element(g)
  {
    content := "";
    var depth: nat := 0;
    var i := |g|;
    border := None;
    while i > 0
      invariant 0 <= i <= |g|
      invariant content == g[i..]
      invariant BorderFrom(g, i, depth) == Border(g)
    {
      var c := g[i - 1];
      if c == '{' {
        if depth == 0 {
          border := Some(i - 1);
          return;
        }
        depth := depth - 1;
      }
      if c == '}' {
        depth := depth + 1;
      }
      content := [c] + content;
      i := i - 1;
    }
  }

  // ---------------------------------------------------------------------------
  // The replacement

  /** `count` copies of the element, a comma after each copy but the last. */
  function RepeatJoin(element: string, count: nat): string {
    if count == 0 then "" else CommaEach(element, count - 1) + element
  }

  function CommaEach(element: string, count: nat): string {
    if count == 0 then "" else CommaEach(element, count - 1) + element + ","
  }

  /** The text kept in front of the `[`, as written: a `{` and the body up
      to the open brace, and a lone `{` when there is no open brace. */
  function PrefixAsWritten(g: string): string {
    match Border(g)
    case None => "{"
    case Some(b) => "{" + g[..b]
  }

  /** The text kept in front of the `[` when the match's own brace is
      the repeat's brace: nothing. */
  function PrefixIntended(g: string): string {
    match Border(g)
    case None => ""
    case Some(b) => "{" + g[..b]
  }

  /** What replaces the match. */
  function Replacement(g: string, count: nat, asWritten: bool): string {
    var prefix := if asWritten then PrefixAsWritten(g) else PrefixIntended(g);
    prefix + "[" + RepeatJoin(Element(g), count) + "]"
  }

  function Unfold(s: string, asWritten: bool): string {
    match RepeatMatch(s)
    case None => s
    case Some(m) => Rewrite(s, m, asWritten)
  }

  /** The text with the match at `m` replaced. */
  function Rewrite(s: string, m: RepeatSite, asWritten: bool): string
    requires ValidSite(s, m)
  {
    s[..m.start] + Replacement(s[m.body..m.tail], m.count, asWritten) + s[m.end..]
  }

  /** The first repeat run rewritten into a list of copies, a `{` kept in
      front of the list even when the run's own brace is the one that
      opens it. */
  function UnfoldedAsWritten(s: string): string { Unfold(s, true) }

  /** The first repeat run rewritten into a list of copies, the run's own
      brace replaced by the list's `[`. */
  function Unfolded(s: string): string { Unfold(s, false) }

  /** The replace callback: the backward scan, then the `res +=` loop. */
  method UnFoldRepeat(s: string) returns (r: string)
    ensures r == UnfoldedAsWritten(s)
  {
    var m := RepeatMatch(s);
    if m.None? {
      return s;
    }
    var site := m.value;
    var g := s[site.body..site.tail];
    var border, content := ScanBody(g);
    var prefix := if border.None? then "{" else "{" + g[..border.value];
    assert prefix == PrefixAsWritten(g);
    var res := AppendCopies(prefix + "[", content, site.count);
    assert res + "]" == Replacement(g, site.count, true);
    r := s[..site.start] + (res + "]") + s[site.end..];
  }

  /** The `res +=` loop: a copy of the element per round, followed by a
      comma except in the last round. */
  method AppendCopies(res0: string, content: string, count: nat) returns (res: string)
    ensures res == res0 + RepeatJoin(content, count)
  {
    res := res0;
    var i := 0;
    while i < count
      invariant 0 <= i <= count
      invariant i < count ==> res == res0 + CommaEach(content, i)
      invariant i == count ==> res == res0 + RepeatJoin(content, i)
    {
      res := res + content + (if i == count - 1 then "" else ",");
      i := i + 1;
    }
  }

  // ---------------------------------------------------------------------------
  // Properties

  /** The copies separated by commas come back as `count` equal elements. */
  lemma {:induction false} RepeatJoinSplits(element: string, count: nat)
    requires count >= 1 && ',' !in element
    ensures Split(RepeatJoin(element, count), ",") == seq(count, _ => element)
  {
    if count == 1 {
      assert RepeatJoin(element, 1) == element;
      SplitNoSeparator(element, ",");
    } else {
      CommaEachPeel(element, count - 1, element);
      assert seq(count - 1, _ => element) + [element] == seq(count, _ => element);
    }
  }

  lemma {:induction false} CommaEachPeel(element: string, count: nat, last: string)
    requires count >= 1 && ',' !in element && ',' !in last
    ensures Split(CommaEach(element, count) + last, ",") == seq(count, _ => element) + [last]
    decreases count
  {
    assert CommaEach(element, count) + last == element + "," + (CommaEach(element, count - 1) + last) by {
      CommaEachFront(element, count);
    }
    SplitAtSeparator(element, ",", CommaEach(element, count - 1) + last);
    if count - 1 == 0 {
      assert CommaEach(element, 0) + last == last;
      SplitNoSeparator(last, ",");
      assert [element] + [last] == seq(count, _ => element) + [last];
    } else {
      CommaEachPeel(element, count - 1, last);
      assert [element] + (seq(count - 1, _ => element) + [last]) == seq(count, _ => element) + [last];
    }
  }

  lemma {:induction false} CommaEachFront(element: string, count: nat)
    requires count >= 1
    ensures CommaEach(element, count) == element + "," + CommaEach(element, count - 1)
    decreases count
  {
    if count > 1 {
      CommaEachFront(element, count - 1);
    }
  }

  // ---------------------------------------------------------------------------
  // One repeat block

  /** How gdb prints the end of a repeat block. */
  function TailText(d: string): string { "<repeats " + d + " times>}" }


  lemma {:induction false} RunEndAt(s: string, i: nat, j: nat, p: char -> bool)
    requires i <= j <= |s|
    requires forall k :: i <= k < j ==> p(s[k])
    requires j == |s| || !p(s[j])
    ensures RunEnd(s, i, p) == j
    decreases j - i
  {
    if i < j {
      RunEndAt(s, i + 1, j, p);
    }
  }

  lemma {:induction false} TailAtOf(x: string, d: string)
    requires d != [] && AllDigits(d)
    ensures RepeatTailAt(x + TailText(d), |x|) == Some((d, |x| + |TailText(d)|))
  {
    TailLayout(x, d);
    TailAtLayout(x + TailText(d), |x|, d);
  }

  /** A tail read off its layout: the word, one space, the digits, one space
      and the closing word. */
  lemma {:induction false} TailAtLayout(s: string, p: nat, d: string)
    requires var a := p + |RepeatsWord|;
      && |s| >= a + |d| + 9 && d != []
      && OccursAt(s, RepeatsWord, p)
      && IsSpace(s[a]) && !IsSpace(s[a + 1])
      && s[a + 1..a + 1 + |d|] == d
      && (forall k :: a + 1 <= k < a + 1 + |d| ==> IsDigit(s[k]))
      && IsSpace(s[a + 1 + |d|]) && !IsDigit(s[a + 1 + |d|]) && !IsSpace(s[a + 2 + |d|])
      && OccursAt(s, TimesWord, a + 2 + |d|)
    ensures RepeatTailAt(s, p) == Some((d, p + |d| + 17))
  {
    var a := p + |RepeatsWord|;
    RunEndAt(s, a, a + 1, IsSpace);
    RunEndAt(s, a + 1, a + 1 + |d|, IsDigit);
    RunEndAt(s, a + 1 + |d|, a + 2 + |d|, IsSpace);
  }

  /** Where the words, the spaces and the digits of a tail sit. */
  lemma {:induction false} TailLayout(x: string, d: string)
    requires d != [] && AllDigits(d)
    ensures var s := x + TailText(d); var a := |x| + |RepeatsWord|;
      && |TailText(d)| == |d| + 17 && |s| == a + |d| + 9
      && OccursAt(s, RepeatsWord, |x|)
      && IsSpace(s[a]) && !IsSpace(s[a + 1])
      && s[a + 1..a + 1 + |d|] == d
      && (forall k :: a + 1 <= k < a + 1 + |d| ==> IsDigit(s[k]))
      && IsSpace(s[a + 1 + |d|]) && !IsDigit(s[a + 1 + |d|]) && !IsSpace(s[a + 2 + |d|])
      && OccursAt(s, TimesWord, a + 2 + |d|)
  {
    var t := TailText(d);
    var s := x + t;
    var a := |x| + |RepeatsWord|;
    var b := |RepeatsWord|;
    assert |t| == |d| + 17 && t[..b] == RepeatsWord && IsSpace(t[b]) && !IsSpace(t[b + 1])
      && t[b + 1..b + 1 + |d|] == d && IsSpace(t[b + 1 + |d|]) && !IsDigit(t[b + 1 + |d|])
      && !IsSpace(t[b + 2 + |d|]) && t[b + 2 + |d|..] == TimesWord by {
      TextLayout(d);
    }
    assert forall k :: 0 <= k < |t| ==> s[|x| + k] == t[k];
    assert s[|x|..a] == t[..b];
    assert s[a + 1..a + 1 + |d|] == t[b + 1..b + 1 + |d|];
    forall k | a + 1 <= k < a + 1 + |d| ensures IsDigit(s[k]) {
      assert s[k] == d[k - a - 1];
    }
    assert s[a + 2 + |d|..a + 2 + |d| + |TimesWord|] == t[b + 2 + |d|..];
  }

  /** Where the words, the spaces and the digits of a tail sit, on its own. */
  lemma {:induction false} TextLayout(d: string)
    requires d != [] && AllDigits(d)
    ensures var t := TailText(d); var b := |RepeatsWord|;
      && |t| == |d| + 17 && t[..b] == RepeatsWord && IsSpace(t[b]) && !IsSpace(t[b + 1])
      && t[b + 1..b + 1 + |d|] == d && IsSpace(t[b + 1 + |d|]) && !IsDigit(t[b + 1 + |d|])
      && !IsSpace(t[b + 2 + |d|]) && t[b + 2 + |d|..] == TimesWord
  {
    var t := TailText(d);
    var b := |RepeatsWord|;
    assert IsDigit(d[0]) && t[b + 1] == d[0];
    assert t == RepeatsWord + " " + d + " " + TimesWord;
    assert t[b + 1..b + 1 + |d|] == d;
    assert t[b + 2 + |d|..] == TimesWord;
  }

  lemma {:induction false} TailTextNoAngle(d: string)
    requires AllDigits(d)
    ensures forall j :: 1 <= j < |TailText(d)| ==> TailText(d)[j] != '<'
  {
    var t := TailText(d);
    assert t == "<repeats " + d + " times>}";
    forall j | 1 <= j < |t| ensures t[j] != '<' {
      if j < 9 {
        assert t[j] == "<repeats "[j];
      } else if j < 9 + |d| {
        assert t[j] == d[j - 9];
      } else {
        assert t[j] == " times>}"[j - 9 - |d|];
      }
    }
  }

  lemma {:induction false} LastBelowSkip(n: nat, p: nat, at: nat -> bool)
    requires p < n && at(p)
    requires forall q :: p < q < n ==> !at(q)
    ensures LastBelow(n, at) == Some(p)
    decreases n - p
  {
    if n - 1 > p {
      LastBelowSkip(n - 1, p, at);
    }
  }

  /** A tail with no `<` after its start is the last one. */
  lemma {:induction false} LastTailSkip(s: string, p: nat)
    requires p < |s| && RepeatTailAt(s, p).Some?
    requires forall q :: p < q < |s| ==> s[q] != '<'
    ensures LastTail(s, |s|) == Some(p)
  {
    LastBelowSkip(|s|, p, TailStarts(s));
  }

  /** `{`, a body without braces that does not open with white space, and
      the tail: the whole text is the match. */
  lemma {:induction false} RepeatMatchSingle(g: string, d: string)
    requires g != [] && !IsSpace(g[0]) && '{' !in g
    requires d != [] && AllDigits(d)
    ensures var m := RepeatMatch("{" + g + TailText(d));
      m.Some? && m.value.start == 0 && m.value.body == 1 && m.value.tail == 1 + |g|
    ensures var m := RepeatMatch("{" + g + TailText(d));
      m.Some? && m.value.count == RadixValue(d, 10) && m.value.end == |"{" + g + TailText(d)|
  {
    var x := "{" + g;
    var s := x + TailText(d);
    TailAtOf(x, d);
    LastTailOfSingle(x, d);
    assert s[..|x|] == x;
    BraceFirst(s, g);
    RepeatMatchAt(s, |x|, 0);
  }

  /** The match once its tail and its opening brace are known, when the
      brace is followed by a character that is not white space. */
  lemma {:induction false} RepeatMatchAt(s: string, p: nat, i: nat)
    requires LastTail(s, |s|) == Some(p) && IndexOf(s, '{') == Some(i) && i + 2 <= p
    requires RunEnd(s, i + 1, IsSpace) == i + 1
    ensures RepeatMatch(s).Some?
    ensures RepeatMatch(s).value.start == i && RepeatMatch(s).value.body == i + 1
    ensures RepeatMatch(s).value.tail == p
    ensures RepeatMatch(s).value.count == RadixValue(RepeatTailAt(s, p).value.0, 10)
    ensures RepeatMatch(s).value.end == RepeatTailAt(s, p).value.1
  {
  }

  lemma {:induction false} BraceFirst(s: string, g: string)
    requires g != [] && !IsSpace(g[0]) && StartsWith(s, "{" + g)
    ensures IndexOf(s, '{') == Some(0) && RunEnd(s, 1, IsSpace) == 1
  {
    assert s[0] == '{' && s[1] == g[0];
    RunEndAt(s, 1, 1, IsSpace);
  }

  lemma {:induction false} LastTailOfSingle(x: string, d: string)
    requires d != [] && AllDigits(d)
    ensures LastTail(x + TailText(d), |x + TailText(d)|) == Some(|x|)
  {
    var s := x + TailText(d);
    TailAtOf(x, d);
    TailTextNoAngle(d);
    forall q | |x| < q < |s| ensures s[q] != '<' {
      assert s[q] == TailText(d)[q - |x|];
    }
    LastTailSkip(s, |x|);
  }

  lemma {:induction false} BorderOfBraceless(g: string)
    requires '{' !in g
    ensures Border(g).None? && Element(g) == g
  {
    assert g[..|g|] == g;
  }

  /** A single block unfolds to its element written `count` times between
      brackets. */
  lemma {:induction false} UnfoldSingleBlock(g: string, d: string)
    requires g != [] && !IsSpace(g[0]) && '{' !in g
    requires d != [] && AllDigits(d)
    ensures Unfolded("{" + g + TailText(d)) == "[" + RepeatJoin(g, RadixValue(d, 10)) + "]"
    ensures UnfoldedAsWritten("{" + g + TailText(d)) == "{[" + RepeatJoin(g, RadixValue(d, 10)) + "]"
  {
    var s := "{" + g + TailText(d);
    RepeatMatchSingle(g, d);
    assert s[1..1 + |g|] == g;
    var m := RepeatMatch(s).value;
    RewriteWhole(s, m, false);
    RewriteWhole(s, m, true);
    ReplacementBraceless(g, RadixValue(d, 10));
  }

  /** A match that covers the whole text leaves only its replacement. */
  lemma {:induction false} RewriteWhole(s: string, m: RepeatSite, asWritten: bool)
    requires ValidSite(s, m) && m.start == 0 && m.end == |s|
    ensures Rewrite(s, m, asWritten) == Replacement(s[m.body..m.tail], m.count, asWritten)
  {
    EmptyEnds(s[..0], Replacement(s[m.body..m.tail], m.count, asWritten), s[|s|..]);
  }

  lemma {:induction false} EmptyEnds(a: string, r: string, b: string)
    requires a == [] && b == []
    ensures a + r + b == r
  {
  }

  /** A body without braces is repeated whole; the source keeps a `{` in
      front of it. */
  lemma {:induction false} ReplacementBraceless(g: string, count: nat)
    requires '{' !in g
    ensures Replacement(g, count, false) == "[" + RepeatJoin(g, count) + "]"
    ensures Replacement(g, count, true) == "{[" + RepeatJoin(g, count) + "]"
  {
    BorderOfBraceless(g);
  }

  lemma {:induction false} RepeatJoinThree(e: string)
    ensures RepeatJoin(e, 3) == e + "," + e + "," + e
  {
    assert CommaEach(e, 1) == e + ",";
    assert CommaEach(e, 2) == e + "," + e + ",";
  }

  lemma {:induction false} FindingText(g: string, d: string)
    requires g == "0 " && d == "3"
    ensures "{" + g + TailText(d) == "{0 <repeats 3 times>}"
    ensures !IsSpace(g[0]) && '{' !in g && AllDigits(d)
    ensures RadixValue(d, 10) == 3
    ensures "[" + RepeatJoin(g, 3) + "]" == "[0 ,0 ,0 ]"
    ensures "{[" + RepeatJoin(g, 3) + "]" == "{[0 ,0 ,0 ]"
  {
    assert d[..0] == [];
    RepeatJoinThree(g);
  }

  /** The source's result for `{0 <repeats 3 times>}` keeps a `{` that is
      never closed; the fixed prefix gives the three copies alone. */
  lemma {:induction false} RepeatPrefixFinding(g: string, d: string)
    requires g == "0 " && d == "3"
    ensures "{" + g + TailText(d) == "{0 <repeats 3 times>}"
    ensures UnfoldedAsWritten("{" + g + TailText(d)) == "{[0 ,0 ,0 ]"
    ensures Unfolded("{" + g + TailText(d)) == "[0 ,0 ,0 ]"
  {
    FindingText(g, d);
    UnfoldSingleBlock(g, d);
  }
}
