/** The top level of the older MI response parser
    (bin/GDBWrapper/GDBTextParser.js). Unlike the current one it first joins
    the console fragments of a `print` or `info locals` reply, cleans every
    whole line before routing it, decodes a result only when no async record
    came, never fails a `break`, and lets every exception leave `Parse`. */
module LegacyParser {
  import opened JsText
  import opened Seqs
  import opened GdbProtocol
  import ExpressionMatcher
  import GdbTextParser
  import LegacyValues

  /** The commands whose console fragments are joined and whose tabs are kept. */
  predicate IsValueCommand(command: string) { command == "print" || command == "info locals" }

  // ---------------------------------------------------------------------------
  // `PreHandleStr`

  /** `^~"(.+)"$`: the text between the quotes of a console fragment. */
  function ConsoleFragment(line: string): (r: Option<string>)
    ensures r.Some? ==> r.value != [] && line == "~\"" + r.value + "\""
  {
    if |line| >= 4 && line[0] == '~' && line[1] == '"' && line[|line| - 1] == '"' then
      assert line == "~\"" + line[2..|line| - 1] + "\"";
      Some(line[2..|line| - 1])
    else None
  }

  /** The console fragment that carries `text`. */
  function FragmentLine(text: string): string { "~\"" + text + "\"" }

  lemma {:induction false} FragmentOf(text: string)
    requires text != []
    ensures ConsoleFragment(FragmentLine(text)) == Some(text)
  {
    var line := FragmentLine(text);
    assert line[2..|line| - 1] == text;
  }

  /** The fragment text that ends a console line: an escaped newline. */
  const NewlineText: string := "\\n"

  /** What `PreHandleStr` holds after some lines: the lines it has emitted
      and the fragment texts still waiting for a newline. */
  datatype Joining = Joining(emitted: seq<string>, pending: seq<string>)

  /** One line of the walk: a newline fragment emits the waiting texts as
      one `~` line, another fragment waits, any other line is emitted. */
  function JoinStep(j: Joining, line: string): Joining {
    match ConsoleFragment(line)
    case None => Joining(j.emitted + [line], j.pending)
    case Some(text) =>
      if text == NewlineText then Joining(j.emitted + ["~" + Flatten(j.pending)], [])
      else Joining(j.emitted, j.pending + [text])
  }

  function JoinLines(lines: seq<string>): Joining {
    if lines == [] then Joining([], []) else JoinStep(JoinLines(lines[..|lines| - 1]), lines[|lines| - 1])
  }

  method PreHandleStr(lines: seq<string>) returns (res: seq<string>)
    ensures res == JoinLines(lines).emitted
  {
    res := [];
    var sub: seq<string> := [];
    var i := 0;
    while i < |lines|
      invariant 0 <= i <= |lines|
      invariant JoinLines(lines[..i]) == Joining(res, sub)
    {
      assert lines[..i + 1][..i] == lines[..i];
      var frag := ConsoleFragment(lines[i]);
      if frag.Some? {
        if frag.value == NewlineText {
          res := res + ["~" + Flatten(sub)];
          sub := [];
        } else {
          sub := sub + [frag.value];
        }
      } else {
        res := res + [lines[i]];
      }
      i := i + 1;
    }
    assert lines[..|lines|] == lines;
  }

  /** A line that is not a console fragment. */
  function OtherLine(line: string): Option<string> {
    if ConsoleFragment(line).None? then Some(line) else None
  }

  /** Every line that is not a console fragment is emitted, in its order. */
  lemma {:induction false} JoinKeepsOthers(lines: seq<string>)
    ensures IsSubsequence(FilterMap(lines, OtherLine), JoinLines(lines).emitted)
    decreases |lines|
  {
    if lines != [] {
      var init := lines[..|lines| - 1];
      var last := lines[|lines| - 1];
      JoinKeepsOthers(init);
      var a := FilterMap(init, OtherLine);
      var b := JoinLines(init).emitted;
      var e := JoinLines(lines).emitted;
      if ConsoleFragment(last).None? {
        assert FilterMap(lines, OtherLine) == a + [last];
        assert e == b + [last];
        assert (a + [last])[..|a|] == a;
        assert e[..|b|] == b;
      } else {
        assert FilterMap(lines, OtherLine) == a;
        if e != b {
          assert e == b + [e[|e| - 1]];
          assert e[..|e| - 1] == b;
        }
      }
    }
  }

  /** The fragments carrying `texts`, in order. */
  function Fragments(texts: seq<string>): (r: seq<string>)
    ensures |r| == |texts|
  {
    if texts == [] then [] else Fragments(texts[..|texts| - 1]) + [FragmentLine(texts[|texts| - 1])]
  }

  /** Texts of fragments that do not end a line. */
  predicate AreFragmentTexts(texts: seq<string>) {
    forall i :: 0 <= i < |texts| ==> texts[i] != [] && texts[i] != NewlineText
  }

  /** Fragments that do not end a line emit nothing and wait, in order;
      fragments no newline fragment follows are therefore dropped. */
  lemma {:induction false} JoinFragments(pre: seq<string>, texts: seq<string>)
    requires AreFragmentTexts(texts)
    ensures JoinLines(pre + Fragments(texts)) == Joining(JoinLines(pre).emitted, JoinLines(pre).pending + texts)
    decreases |texts|
  {
    if texts == [] {
      assert pre + [] == pre;
    } else {
      var init := texts[..|texts| - 1];
      var t := texts[|texts| - 1];
      assert AreFragmentTexts(init) by {
        forall i | 0 <= i < |init| ensures init[i] != [] && init[i] != NewlineText {
          assert init[i] == texts[i];
        }
      }
      JoinFragments(pre, init);
      JoinFragmentsStep(pre, init, t);
      assert init + [t] == texts;
    }
  }

  /** The step of `JoinFragments`: one more fragment waits. */
  lemma {:induction false} JoinFragmentsStep(pre: seq<string>, init: seq<string>, t: string)
    requires t != [] && t != NewlineText
    requires JoinLines(pre + Fragments(init)) == Joining(JoinLines(pre).emitted, JoinLines(pre).pending + init)
    ensures JoinLines(pre + Fragments(init + [t])) == Joining(JoinLines(pre).emitted, JoinLines(pre).pending + init + [t])
  {
    var prev := pre + Fragments(init);
    var line := FragmentLine(t);
    var j := JoinLines(pre);
    assert pre + Fragments(init + [t]) == prev + [line] by {
      assert (init + [t])[..|init|] == init;
      assert Fragments(init + [t]) == Fragments(init) + [line];
    }
    assert JoinLines(prev + [line]) == Joining(j.emitted, j.pending + init + [t]) by {
      JoinLinesSnoc(prev, line);
      JoinWait(JoinLines(prev), t);
    }
  }

  /** A fragment that does not end a line waits. */
  lemma {:induction false} JoinWait(j: Joining, t: string)
    requires t != [] && t != NewlineText
    ensures JoinStep(j, FragmentLine(t)) == Joining(j.emitted, j.pending + [t])
  {
    FragmentOf(t);
  }

  /** One more line is one more step. */
  lemma {:induction false} JoinLinesSnoc(lines: seq<string>, line: string)
    ensures JoinLines(lines + [line]) == JoinStep(JoinLines(lines), line)
  {
    assert (lines + [line])[..|lines|] == lines;
  }

  /** The newline fragment emits one `~` line holding every waiting text. */
  lemma {:induction false} JoinNewline(pre: seq<string>)
    ensures JoinLines(pre + [FragmentLine(NewlineText)])
         == Joining(JoinLines(pre).emitted + ["~" + Flatten(JoinLines(pre).pending)], [])
  {
    FragmentOf(NewlineText);
    JoinLinesSnoc(pre, FragmentLine(NewlineText));
  }

  /** A console line sent in fragments comes back as one `~` line with the
      fragments' texts concatenated. */
  lemma {:induction false} JoinConsoleLine(pre: seq<string>, texts: seq<string>)
    requires AreFragmentTexts(texts) && JoinLines(pre).pending == []
    ensures JoinLines(pre + Fragments(texts) + [FragmentLine(NewlineText)])
         == Joining(JoinLines(pre).emitted + ["~" + Flatten(texts)], [])
  {
    JoinFragments(pre, texts);
    JoinNewline(pre + Fragments(texts));
    assert [] + texts == texts;
  }

  // ---------------------------------------------------------------------------
  // `HandleStr`

  /** `^(.)"(.+)"$`: a line whose text is quoted loses the quotes. */
  function Unquoted(line: string): string {
    if |line| >= 4 && line[1] == '"' && line[|line| - 1] == '"' then [line[0]] + line[2..|line| - 1] else line
  }

  /** `/\\n|\\r/g` replaced by nothing: escaped newlines and carriage
      returns are deleted in one left-to-right pass. */
  function DeleteLineEscapes(s: string): (r: string)
    ensures |r| <= |s|
    decreases |s|
  {
    if s == [] then []
    else if |s| >= 2 && s[0] == '\\' && (s[1] == 'n' || s[1] == 'r') then DeleteLineEscapes(s[2..])
    else [s[0]] + DeleteLineEscapes(s[1..])
  }

  /** `HandleStr`: the quotes go, `\t` becomes a space (except for `print`
      and `info locals`), `\n` and `\r` go, and `\"` becomes `"`. */
  function HandleStr(command: string, line: string): string {
    var u := Unquoted(line);
    var t := if IsValueCommand(command) then u else ReplaceAll(u, "\\t", " ");
    ReplaceAll(DeleteLineEscapes(t), "\\\"", "\"")
  }

  /** Text without a backslash is kept by the deletion. */
  lemma {:induction false} DeleteLineEscapesPrefix(p: string, q: string)
    requires '\\' !in p
    ensures DeleteLineEscapes(p + q) == p + DeleteLineEscapes(q)
    decreases |p|
  {
    if p != [] {
      assert (p + q)[0] == p[0] && p[0] in p;
      assert (p + q)[1..] == p[1..] + q;
      DeleteLineEscapesPrefix(p[1..], q);
      ConsAppend(p, DeleteLineEscapes(q));
    } else {
      assert p + q == q;
    }
  }

  /** Text whose backslashes are followed by neither `n` nor `r` is kept. */
  lemma {:induction false} DeleteLineEscapesAbsent(s: string)
    requires forall i :: 0 <= i < |s| - 1 && s[i] == '\\' ==> s[i + 1] != 'n' && s[i + 1] != 'r'
    ensures DeleteLineEscapes(s) == s
    decreases |s|
  {
    if s != [] {
      assert forall i :: 0 <= i < |s[1..]| - 1 && s[1..][i] == '\\' ==> s[1..][i + 1] != 'n' && s[1..][i + 1] != 'r' by {
        forall i | 0 <= i < |s[1..]| - 1 && s[1..][i] == '\\' ensures s[1..][i + 1] != 'n' && s[1..][i + 1] != 'r' {
          assert s[1..][i] == s[i + 1] && s[1..][i + 1] == s[i + 2];
        }
      }
      DeleteLineEscapesAbsent(s[1..]);
      assert [s[0]] + s[1..] == s;
    }
  }

  /** A prefix without the pattern's first character is kept by a replacement. */
  lemma {:induction false} ReplaceAllPrefix(p: string, q: string, pat: string, rep: string)
    requires pat != [] && pat[0] !in p
    ensures ReplaceAll(p + q, pat, rep) == p + ReplaceAll(q, pat, rep)
    decreases |p|
  {
    if p != [] {
      var s := p + q;
      assert s[0] == p[0] && p[0] in p;
      assert |s| >= |pat| ==> s[..|pat|][0] == p[0];
      assert s[1..] == p[1..] + q;
      ReplaceAllPrefix(p[1..], q, pat, rep);
      ConsAppend(p, ReplaceAll(q, pat, rep));
    } else {
      assert p + q == q;
    }
  }

  /** The one occurrence of a pattern is replaced. */
  lemma {:induction false} ReplaceAllOnce(p: string, q: string, pat: string, rep: string)
    requires pat != [] && pat[0] !in p && pat[0] !in q
    ensures ReplaceAll(p + pat + q, pat, rep) == p + rep + q
  {
    ReplaceAllPrefix(p, pat + q, pat, rep);
    assert (pat + q)[..|pat|] == pat && (pat + q)[|pat|..] == q;
    ReplaceAllMissing(q, pat, rep, pat[0]);
    assert p + pat + q == p + (pat + q);
  }

  /** A console line `F"TEXT\n"`: the quotes and the newline escape go. */
  lemma {:induction false} HandleStrConsoleLine(command: string, flag: char, text: string)
    requires flag != '\\' && '\\' !in text
    ensures HandleStr(command, [flag] + "\"" + text + "\\n\"") == [flag] + text
  {
    var line := [flag] + "\"" + text + "\\n\"";
    var p := [flag] + text;
    assert '\\' !in p;
    assert line[2..|line| - 1] == text + "\\n";
    assert Unquoted(line) == p + "\\n";
    assert ReplaceAll(p + "\\n", "\\t", " ") == p + "\\n" by {
      ReplaceAllPrefix(p, "\\n", "\\t", " ");
      assert ReplaceAll("n", "\\t", " ") == "n";
      assert "\\n"[..2][1] != "\\t"[1] && "\\n"[1..] == "n";
      assert ReplaceAll("\\n", "\\t", " ") == "\\n";
    }
    assert DeleteLineEscapes(p + "\\n") == p by {
      DeleteLineEscapesPrefix(p, "\\n");
      assert DeleteLineEscapes("\\n") == [];
    }
    ReplaceAllMissing(p, "\\\"", "\"", '\\');
  }

  /** A quoted line with one `\t`: a space, except for `print` and
      `info locals`, which keep the escape. */
  lemma {:induction false} HandleStrTab(command: string, flag: char, a: string, b: string)
    requires flag != '\\' && '\\' !in a && '\\' !in b
    ensures HandleStr(command, [flag] + "\"" + a + "\\t" + b + "\"")
         == [flag] + a + (if IsValueCommand(command) then "\\t" else " ") + b
  {
    var line := [flag] + "\"" + a + "\\t" + b + "\"";
    var p := [flag] + a;
    assert '\\' !in p;
    assert line[2..|line| - 1] == a + "\\t" + b;
    assert Unquoted(line) == p + "\\t" + b;
    if IsValueCommand(command) {
      var tb := "t" + b;
      assert '\\' !in tb;
      assert DeleteLineEscapes(p + "\\t" + b) == p + "\\t" + b by {
        assert p + "\\t" + b == p + (['\\'] + tb);
        DeleteLineEscapesPrefix(p, ['\\'] + tb);
        assert DeleteLineEscapes(['\\'] + tb) == ['\\'] + DeleteLineEscapes(tb);
        DeleteLineEscapesPrefix(tb, []);
        assert tb + [] == tb;
      }
      assert ReplaceAll(p + "\\t" + b, "\\\"", "\"") == p + "\\t" + b by {
        assert p + "\\t" + b == p + (['\\'] + tb);
        ReplaceAllPrefix(p, ['\\'] + tb, "\\\"", "\"");
        assert (['\\'] + tb)[..2] != "\\\"" by {
          assert (['\\'] + tb)[1] == 't';
        }
        assert (['\\'] + tb)[1..] == tb;
        ReplaceAllMissing(tb, "\\\"", "\"", '\\');
      }
    } else {
      ReplaceAllOnce(p, b, "\\t", " ");
      var r := p + " " + b;
      assert '\\' !in r;
      assert DeleteLineEscapes(r) == r by {
        DeleteLineEscapesPrefix(r, []);
        assert r + [] == r;
      }
      ReplaceAllMissing(r, "\\\"", "\"", '\\');
    }
  }

  /** Every backslash comes before a quote. */
  predicate QuoteEscapesOnly(u: string) {
    forall i :: 0 <= i < |u| && u[i] == '\\' ==> i + 1 < |u| && u[i + 1] == '"'
  }

  /** In text whose quotes are escaped every backslash comes before a quote. */
  lemma {:induction false} EscapedQuotesOnly(text: string)
    requires '\\' !in text
    ensures QuoteEscapesOnly(GdbTextParser.EscapeChar(text, '"'))
    decreases |text|
  {
    if text != [] {
      assert text[0] in text;
      assert forall c :: c in text[1..] ==> c in text;
      EscapedQuotesOnly(text[1..]);
      var h := if text[0] == '"' then ['\\', '"'] else [text[0]];
      var t := GdbTextParser.EscapeChar(text[1..], '"');
      var e := GdbTextParser.EscapeChar(text, '"');
      assert e == h + t;
      forall i | 0 <= i < |e| && e[i] == '\\' ensures i + 1 < |e| && e[i + 1] == '"' {
        if i < |h| {
          assert e[i] == h[i];
          assert e[1] == '"';
        } else {
          assert t[i - |h|] == e[i];
          assert i - |h| + 1 < |t| && t[i - |h| + 1] == '"';
          assert e[i + 1] == t[i + 1 - |h|];
        }
      }
    }
  }

  /** A flag that is not a backslash keeps the property. */
  lemma {:induction false} QuoteEscapesFlag(flag: char, e: string)
    requires flag != '\\' && QuoteEscapesOnly(e)
    ensures QuoteEscapesOnly([flag] + e)
  {
    var u := [flag] + e;
    forall i | 0 <= i < |u| && u[i] == '\\' ensures i + 1 < |u| && u[i + 1] == '"' {
      assert i >= 1 && u[i] == e[i - 1];
      assert e[i] == u[i + 1];
    }
  }

  /** Text whose backslashes all come before quotes holds no `\t`, `\n`
      or `\r` escape. */
  lemma {:induction false} QuoteEscapesKept(u: string)
    requires QuoteEscapesOnly(u)
    ensures ReplaceAll(u, "\\t", " ") == u && DeleteLineEscapes(u) == u
  {
    forall i: nat ensures !OccursAt(u, "\\t", i) {
      if i + 2 <= |u| && u[i] == '\\' {
        assert u[i + 1] == '"' && u[i..i + 2][1] == u[i + 1];
      }
    }
    ReplaceAllAbsent(u, "\\t", " ");
    DeleteLineEscapesAbsent(u);
  }

  /** A quoted line whose quotes gdb escaped: the text comes back as it was. */
  lemma {:induction false} HandleStrEscapedQuotes(command: string, flag: char, text: string)
    requires flag != '\\' && '\\' !in text && text != []
    ensures HandleStr(command, [flag] + "\"" + GdbTextParser.EscapeChar(text, '"') + "\"") == [flag] + text
  {
    var e := GdbTextParser.EscapeChar(text, '"');
    var line := [flag] + "\"" + e + "\"";
    var u := [flag] + e;
    assert Unquoted(line) == u by {
      assert line[2..|line| - 1] == e;
    }
    assert ReplaceAll(u, "\\t", " ") == u && DeleteLineEscapes(u) == u by {
      EscapedQuotesOnly(text);
      QuoteEscapesFlag(flag, e);
      QuoteEscapesKept(u);
    }
    assert ReplaceAll(u, "\\\"", "\"") == [flag] + text by {
      ReplaceAllPrefix([flag], e, "\\\"", "\"");
      GdbTextParser.ReplaceAllEscaped(text, '"');
    }
  }

  // ---------------------------------------------------------------------------
  // `ParseExecStatus` and `ParseToRunningStatus`

  /** `PreHandleErrorMsgLine`: each backslash and its decimal digits become
      the character with that code. */
  function PreHandleErrorMsgLine(s: string): string {
    GdbTextParser.DecodeDecimalEscapes(s)
  }

  /** `ParseExecStatus` of the older parser: the same rule as the current
      one. */
  function ParseExecStatus(line: string): (r: ExecuteResult)
    ensures r == GdbTextParser.ParseExecStatus(line)
  {
    var prefix := GdbTextParser.ErrorPrefix;
    if StartsWith(line, prefix) && |line| > |prefix| then ExecuteResult(false, Some(PreHandleErrorMsgLine(line[|prefix|..])))
    else ExecuteResult(true, None)
  }

  /** `\*(\w+),(.+)` searched from `i`: the first `*` followed by a word, a
      comma and at least one more character. */
  function AsyncRecordFrom(line: string, i: nat): (r: Option<(string, string)>)
    requires i <= |line|
    ensures r.Some? ==> exists j :: i <= j < |line| && line[j] == '*' && line[j + 1..] == r.value.0 + "," + r.value.1
    ensures r.Some? ==> r.value.0 != [] && r.value.1 != [] && forall k :: 0 <= k < |r.value.0| ==> IsWordChar(r.value.0[k])
    decreases |line| - i
  {
    if i == |line| then None
    else if line[i] == '*' && GdbTextParser.SplitAsyncRecord(line[i + 1..]).Some? then GdbTextParser.SplitAsyncRecord(line[i + 1..])
    else AsyncRecordFrom(line, i + 1)
  }

  /** `ParseToRunningStatus` of the older parser: the whole line is searched
      and nothing is trimmed; without a match, reading the failed match
      throws. */
  function ParseToRunningStatus(line: string): (r: Outcome<RunningStatus>)
    ensures r.Thrown? <==> AsyncRecordFrom(line, 0).None?
    ensures r.Thrown? ==> r.message == GdbTextParser.RunningNullMessage
    ensures r.Ok? ==> exists j :: 0 <= j < |line| && line[j] == '*' && line[j + 1..] == r.value.kind + "," + r.value.info
  {
    match AsyncRecordFrom(line, 0)
    case None => Thrown(GdbTextParser.RunningNullMessage)
    case Some((kind, info)) => Ok(RunningStatus(kind, info))
  }

  /** `*CLASS,RESULTS` gives that class and those results, trailing white
      space included. */
  lemma {:induction false} RunningStatusOf(kind: string, info: string)
    requires kind != [] && forall i :: 0 <= i < |kind| ==> IsWordChar(kind[i])
    requires info != []
    ensures ParseToRunningStatus("*" + kind + "," + info) == Ok(RunningStatus(kind, info))
  {
    var line := "*" + kind + "," + info;
    assert line[1..] == kind + "," + info;
    GdbTextParser.SplitAsyncRecordOf(kind, info);
  }

  // ---------------------------------------------------------------------------
  // The older `ExpressionMatcher`'s recognisers that differ

  const NoSymbolsText: string := "(No debugging symbols found"

  /** `^.*\(No debugging symbols found.*$`: the phrase after an opening
      parenthesis, in this letter case. */
  predicate MentionsNoSymbols(line: string) {
    Contains(line, NoSymbolsText)
  }

  method IsFileNoSymbol(lines: seq<string>) returns (found: bool)
    ensures found <==> exists i :: 0 <= i < |lines| && MentionsNoSymbols(lines[i])
  {
    var i := 0;
    while i < |lines|
      invariant 0 <= i <= |lines|
      invariant forall j :: 0 <= j < i ==> !MentionsNoSymbols(lines[j])
    {
      if MentionsNoSymbols(lines[i]) {
        return true;
      }
      i := i + 1;
    }
    return false;
  }

  /** The older `Call_Stack`: nothing may follow the line number. */
  function ParseStackLine(s: string): Option<GDBFrame> {
    ExpressionMatcher.ParseStackLineWith(s, false, IsDigit)
  }

  method ParseToStacks(lines: seq<string>) returns (res: seq<GDBFrame>)
    ensures res == FilterMap(lines, ParseStackLine)
  {
    res := Collect(lines, ParseStackLine);
  }

  // ---------------------------------------------------------------------------
  // `ParseToResult`

  /** A result is extracted only from a successful reply without an async
      record. */
  predicate Decodes(status: ExecuteResult, running: Option<RunningStatus>) {
    status.isDone && running.None?
  }

  /** `ParseToResult` of the older parser. */
  function ResultOf(command: string, status: ExecuteResult, running: Option<RunningStatus>, lines: seq<string>)
    : (r: Outcome<GdbTextParser.Decoded>)
    ensures !Decodes(status, running) ==> r == Ok(GdbTextParser.Decoded(None, status))
    ensures r.Thrown? ==> IsValueCommand(command)
    ensures r.Ok? && r.value.result.Some? ==> Decodes(status, running) && r.value.status == status
    ensures r.Ok? && r.value.result.Some? ==> running.None? && status.isDone
    ensures r.Ok? ==> r.value.status == status || r.value.status == ExecuteResult(false, Some(GdbTextParser.NoSymbolsMessage))
    ensures command == "break" ==> r.Ok? && r.value.status == status
    ensures command == "file" && Decodes(status, running) ==>
      r.Ok? && r.value.result.None? && (r.value.status.isDone <==> forall i :: 0 <= i < |lines| ==> !MentionsNoSymbols(lines[i]))
  {
    if !Decodes(status, running) then Ok(GdbTextParser.Decoded(None, status))
    else if command == "file" then
      if exists i :: 0 <= i < |lines| && MentionsNoSymbols(lines[i]) then
        Ok(GdbTextParser.Decoded(None, ExecuteResult(false, Some(GdbTextParser.NoSymbolsMessage))))
      else Ok(GdbTextParser.Decoded(None, status))
    else if command == "info variables" then
      Ok(GdbTextParser.Decoded(Some(Variables(FilterMap(lines, ExpressionMatcher.ParseVariableLine))), status))
    else if command == "info registers" then
      Ok(GdbTextParser.Decoded(Some(Values(FilterMap(lines, ExpressionMatcher.ParseRegisterLine))), status))
    else if IsValueCommand(command) then
      match TryMap(lines, ExpressionMatcher.IsExpression, LegacyValues.Decoder())
      case Thrown(m) => Thrown(m)
      case Ok(v) => Ok(GdbTextParser.Decoded(Some(Values(v)), status))
    else if command == "info stack" then Ok(GdbTextParser.Decoded(Some(Frames(FilterMap(lines, ParseStackLine))), status))
    else if command == "break" then
      var bp := ExpressionMatcher.LastBreakpoint(lines);
      Ok(GdbTextParser.Decoded(if bp.Some? then Some(Breakpoint(bp.value)) else None, status))
    else Ok(GdbTextParser.Decoded(None, status))
  }

  method ParseToResult(command: string, status: ExecuteResult, running: Option<RunningStatus>, lines: seq<string>)
    returns (r: Outcome<GdbTextParser.Decoded>)
    ensures r == ResultOf(command, status, running, lines)
  {
    r := Ok(GdbTextParser.Decoded(None, status));
    if !Decodes(status, running) {
      return;
    }
    if command == "file" {
      var found := IsFileNoSymbol(lines);
      if found {
        r := Ok(GdbTextParser.Decoded(None, ExecuteResult(false, Some(GdbTextParser.NoSymbolsMessage))));
      }
    } else if command == "info variables" {
      var defs := ExpressionMatcher.ParseToVariablesDefine(lines);
      r := Ok(GdbTextParser.Decoded(Some(Variables(defs)), status));
    } else if command == "info registers" {
      var regs := ExpressionMatcher.ParseToRegisterValue(lines);
      r := Ok(GdbTextParser.Decoded(Some(Values(regs)), status));
    } else if IsValueCommand(command) {
      var v := LegacyValues.ParseToValue(lines);
      if v.Thrown? {
        r := Thrown(v.message);
      } else {
        r := Ok(GdbTextParser.Decoded(Some(Values(v.value)), status));
      }
    } else if command == "info stack" {
      var frames := ParseToStacks(lines);
      r := Ok(GdbTextParser.Decoded(Some(Frames(frames)), status));
    } else if command == "break" {
      var bp := ExpressionMatcher.ParseToBreakpointInfo(lines);
      r := Ok(GdbTextParser.Decoded(if bp.Some? then Some(Breakpoint(bp.value)) else None, status));
    }
  }

  /** On the same console lines both parsers report the same breakpoint;
      when none is reported the current one fails the reply, listing the
      lines, while the older one leaves it successful. */
  lemma {:induction false} BreakVariants(status: ExecuteResult, lines: seq<string>)
    requires status.isDone
    ensures var older := ResultOf("break", status, None, lines).value;
      var current := GdbTextParser.BreakDecoded(status, lines);
      older.result == current.result && older.status == status
      && (current.status == status <==> exists i :: 0 <= i < |lines| && ParseBreakpointLineOf(lines[i]).Some?)
  {
    GdbTextParser.BreakResult(status, lines);
  }

  function ParseBreakpointLineOf(line: string): Option<BaseBreakPoint> {
    ExpressionMatcher.ParseBreakpointLine(line)
  }

  // ---------------------------------------------------------------------------
  // `Parse`

  /** One cleaned line, routed by its first character; a `*` record that
      does not fit throws. */
  function RouteLine(line: string, acc: GdbTextParser.Gathered): Outcome<GdbTextParser.Gathered> {
    if line == [] then Ok(acc)
    else if line[0] == '*' then
      match ParseToRunningStatus(line)
      case Thrown(m) => Thrown(m)
      case Ok(st) => Ok(acc.(running := Some(st)))
    else if line[0] == '^' then Ok(acc.(status := ParseExecStatus(line[1..])))
    else if line[0] == '&' || line[0] == '~' then Ok(acc.(console := acc.console + [line[1..]]))
    else Ok(acc)
  }

  /** The lines after `HandleStr`. */
  function Handled(command: string, raws: seq<string>): (r: seq<string>)
    ensures |r| == |raws| && forall i :: 0 <= i < |raws| ==> r[i] == HandleStr(command, raws[i])
  {
    seq(|raws|, i requires 0 <= i < |raws| => HandleStr(command, raws[i]))
  }

  /** A cleaned `*` line that does not have the shape of an async record. */
  function AsyncFails(): string -> bool {
    line => GdbTextParser.HasFlag(line, '*') && ParseToRunningStatus(line).Thrown?
  }

  /** The status of the last cleaned `^` line, or a success without a
      message. */
  function LastStatus(lines: seq<string>): (r: ExecuteResult)
    ensures r.isDone <==> r.msg.None?
  {
    match GdbTextParser.LastRecord(lines, '^')
    case None => ExecuteResult(true, None)
    case Some(i) => ParseExecStatus(lines[i][1..])
  }

  /** The running status of the last cleaned `*` line, if there is one. */
  function LastRunning(lines: seq<string>): Option<RunningStatus> {
    match GdbTextParser.LastRecord(lines, '*')
    case None => None
    case Some(i) => if ParseToRunningStatus(lines[i]).Ok? then Some(ParseToRunningStatus(lines[i]).value) else None
  }

  /** The walk throws exactly when some cleaned `*` line is malformed;
      otherwise the status is the last cleaned `^` line's and the running
      status the last cleaned `*` line's. */
  function GatherLines(command: string, raws: seq<string>): (r: Outcome<GdbTextParser.Gathered>)
    ensures r.Thrown? <==> Any(Handled(command, raws), AsyncFails())
    ensures r.Thrown? ==> r.message == GdbTextParser.RunningNullMessage
    ensures r.Ok? ==> r.value.status == LastStatus(Handled(command, raws))
    ensures r.Ok? ==> r.value.running == LastRunning(Handled(command, raws))
    ensures r.Ok? ==> |r.value.console| <= |raws|
    decreases |raws|
  {
    if raws == [] then Ok(GdbTextParser.Initial)
    else
      var init := raws[..|raws| - 1];
      var line := HandleStr(command, raws[|raws| - 1]);
      HandledStep(command, raws);
      match GatherLines(command, init)
      case Thrown(m) => Thrown(m)
      case Ok(acc) =>
        RouteLineEffect(line, acc);
        RouteLine(line, acc)
  }

  /** The cleaned lines of a longer walk extend those of a shorter one, and
      what each property says of them follows. */
  lemma {:induction false} HandledStep(command: string, raws: seq<string>)
    requires raws != []
    ensures var hs := Handled(command, raws); var line := HandleStr(command, raws[|raws| - 1]);
      && hs[..|hs| - 1] == Handled(command, raws[..|raws| - 1]) && hs[|hs| - 1] == line
      && (Any(hs, AsyncFails()) <==> Any(hs[..|hs| - 1], AsyncFails()) || AsyncFails()(line))
      && LastStatus(hs) == (if GdbTextParser.HasFlag(line, '^') then ParseExecStatus(line[1..]) else LastStatus(hs[..|hs| - 1]))
      && LastRunning(hs) == (if GdbTextParser.HasFlag(line, '*') then
          (if ParseToRunningStatus(line).Ok? then Some(ParseToRunningStatus(line).value) else None)
          else LastRunning(hs[..|hs| - 1]))
  {
    var hs := Handled(command, raws);
    assert hs[..|hs| - 1] == Handled(command, raws[..|raws| - 1]);
    AnyStep(hs, AsyncFails());
    LastStep(hs);
  }

  /** The last status and running status of cleaned lines, one line at a
      time. */
  lemma {:induction false} LastStep(hs: seq<string>)
    requires hs != []
    ensures var line := hs[|hs| - 1];
      && LastStatus(hs) == (if GdbTextParser.HasFlag(line, '^') then ParseExecStatus(line[1..]) else LastStatus(hs[..|hs| - 1]))
      && LastRunning(hs) == (if GdbTextParser.HasFlag(line, '*') then
          (if ParseToRunningStatus(line).Ok? then Some(ParseToRunningStatus(line).value) else None)
          else LastRunning(hs[..|hs| - 1]))
  {
    GdbTextParser.LastRecordStep(hs, '^');
    GdbTextParser.LastRecordStep(hs, '*');
    var a := GdbTextParser.LastRecord(hs[..|hs| - 1], '^');
    if a.Some? {
      assert hs[..|hs| - 1][a.value] == hs[a.value];
    }
    var b := GdbTextParser.LastRecord(hs[..|hs| - 1], '*');
    if b.Some? {
      assert hs[..|hs| - 1][b.value] == hs[b.value];
    }
  }

  /** What one cleaned line does to the gathered state, by its flag. */
  lemma {:induction false} RouteLineEffect(line: string, acc: GdbTextParser.Gathered)
    ensures var r := RouteLine(line, acc);
      && (r.Thrown? <==> AsyncFails()(line))
      && (r.Thrown? ==> r.message == GdbTextParser.RunningNullMessage)
      && (r.Ok? ==> r.value.status == if GdbTextParser.HasFlag(line, '^') then ParseExecStatus(line[1..]) else acc.status)
      && (r.Ok? ==> r.value.running == if GdbTextParser.HasFlag(line, '*') then Some(ParseToRunningStatus(line).value) else acc.running)
      && (r.Ok? ==> |r.value.console| <= |acc.console| + 1)
  {
  }

  /** The console text a buffered line adds, if any. */
  function ConsoleText(command: string): string -> Option<string> {
    raw => var l := HandleStr(command, raw); if l != [] && (l[0] == '~' || l[0] == '&') then Some(l[1..]) else None
  }

  /** The console list is exactly the cleaned `~`/`&` lines without their
      flag, in the order they came. */
  lemma {:induction false} GatheredConsole(command: string, raws: seq<string>)
    requires GatherLines(command, raws).Ok?
    ensures GatherLines(command, raws).value.console == FilterMap(raws, ConsoleText(command))
    decreases |raws|
  {
    if raws != [] {
      var init := raws[..|raws| - 1];
      var line := HandleStr(command, raws[|raws| - 1]);
      assert GatherLines(command, init).Ok? && GatherLines(command, raws) == RouteLine(line, GatherLines(command, init).value);
      GatheredConsole(command, init);
      RouteLineConsole(line, GatherLines(command, init).value);
    }
  }

  /** Only `~` and `&` lines add to the console list, without their flag. */
  lemma {:induction false} RouteLineConsole(line: string, acc: GdbTextParser.Gathered)
    requires RouteLine(line, acc).Ok?
    ensures RouteLine(line, acc).value.console
         == acc.console + (if line != [] && (line[0] == '~' || line[0] == '&') then [line[1..]] else [])
  {
  }

  /** Once a line has thrown, later lines do not matter. */
  lemma {:induction false} GatherThrownPrefix(command: string, raws: seq<string>, n: nat)
    requires n <= |raws| && GatherLines(command, raws[..n]).Thrown?
    ensures GatherLines(command, raws) == GatherLines(command, raws[..n])
  {
    forall k | n < k <= |raws| && GatherLines(command, raws[..k - 1]).Thrown?
      ensures GatherLines(command, raws[..k]) == GatherLines(command, raws[..k - 1])
    {
      GatherThrownStep(command, raws, k);
    }
    ThrownStays(xs => GatherLines(command, xs), raws, n);
  }

  /** A line after one that threw leaves the outcome as it was. */
  lemma {:induction false} GatherThrownStep(command: string, raws: seq<string>, k: nat)
    requires 0 < k <= |raws| && GatherLines(command, raws[..k - 1]).Thrown?
    ensures GatherLines(command, raws[..k]) == GatherLines(command, raws[..k - 1])
  {
    var p := raws[..k];
    assert p[..|p| - 1] == raws[..k - 1];
  }

  /** The lines `Parse` walks: joined for `print` and `info locals`. */
  function Prepared(command: string, lines: seq<string>): seq<string> {
    if IsValueCommand(command) then JoinLines(lines).emitted else lines
  }

  /** The buffered lines the walk routes: all prepared lines but the first. */
  function Walked(command: string, lines: seq<string>): seq<string> {
    GdbTextParser.Records(Prepared(command, lines))
  }

  /** The response `Parse` returns, or the exception that leaves it: a
      malformed cleaned `*` line throws; otherwise the result is decoded from
      the last cleaned `^` line's status, the last cleaned `*` line's running
      status and the console text, and an exception of the decoding leaves
      `Parse` too. */
  function ParseResponse(command: string, lines: seq<string>): (r: Outcome<GDBServerResponse>)
    ensures r.Ok? ==> r.value.command == command
    ensures r.Ok? ==> (r.value.status.isDone <==> r.value.status.msg.None?)
    ensures r.Ok? && r.value.runningStatus.Some? ==> r.value.result.None?
    ensures r.Ok? && r.value.result.Some? ==> r.value.status.isDone
    ensures r.Thrown? && !IsValueCommand(command) ==> r.message == GdbTextParser.RunningNullMessage
    ensures var hs := Handled(command, Walked(command, lines));
      Any(hs, AsyncFails()) ==> r == Thrown(GdbTextParser.RunningNullMessage)
    ensures var raws := Walked(command, lines); var hs := Handled(command, raws);
      !Any(hs, AsyncFails()) ==>
        var d := ResultOf(command, LastStatus(hs), LastRunning(hs), FilterMap(raws, ConsoleText(command)));
        && (d.Thrown? ==> r == Thrown(d.message))
        && (d.Ok? ==> r == Ok(GDBServerResponse(command, d.value.result, d.value.status, LastRunning(hs))))
  {
    var ls := Prepared(command, lines);
    var raws := GdbTextParser.Records(ls);
    match GatherLines(command, raws)
    case Thrown(m) => Thrown(m)
    case Ok(g) =>
      GatheredConsole(command, raws);
      var hs := Handled(command, raws);
      assert g == GdbTextParser.Gathered(LastStatus(hs), LastRunning(hs), FilterMap(raws, ConsoleText(command)));
      match ResultOf(command, g.status, g.running, g.console)
      case Thrown(m) => Thrown(m)
      case Ok(d) => Ok(GDBServerResponse(command, d.result, d.status, g.running))
  }

  /** The `forEach` over the buffered lines after the first. */
  method Gather(command: string, raws: seq<string>) returns (r: Outcome<GdbTextParser.Gathered>)
    ensures r == GatherLines(command, raws)
  {
    var acc := GdbTextParser.Initial;
    var i := 0;
    while i < |raws|
      invariant 0 <= i <= |raws|
      invariant GatherLines(command, raws[..i]) == Ok(acc)
    {
      assert raws[..i + 1][..i] == raws[..i];
      var line := HandleStr(command, raws[i]);
      if line != [] {
        if line[0] == '*' {
          var st := ParseToRunningStatus(line);
          if st.Thrown? {
            GatherThrownPrefix(command, raws, i + 1);
            return Thrown(st.message);
          }
          acc := acc.(running := Some(st.value));
        } else if line[0] == '^' {
          acc := acc.(status := ParseExecStatus(line[1..]));
        } else if line[0] == '&' || line[0] == '~' {
          acc := acc.(console := acc.console + [line[1..]]);
        }
      }
      i := i + 1;
    }
    assert raws[..|raws|] == raws;
    r := Ok(acc);
  }

  /** The first line never matters, once the console fragments are joined. */
  lemma {:induction false} ParseResponseSkipsFirst(command: string, first: string, other: string, rest: seq<string>)
    requires !IsValueCommand(command)
    ensures ParseResponse(command, [first] + rest) == ParseResponse(command, [other] + rest)
  {
    assert GdbTextParser.Records([first] + rest) == rest == GdbTextParser.Records([other] + rest);
  }

  method Parse(command: string, lines: seq<string>) returns (r: Outcome<GDBServerResponse>)
    ensures r == ParseResponse(command, lines)
  {
    var ls := lines;
    if IsValueCommand(command) {
      ls := PreHandleStr(lines);
    }
    var raws := if ls == [] then [] else ls[1..];
    var g := Gather(command, raws);
    if g.Thrown? {
      return Thrown(g.message);
    }
    var d := ParseToResult(command, g.value.status, g.value.running, g.value.console);
    if d.Thrown? {
      r := Thrown(d.message);
    } else {
      r := Ok(GDBServerResponse(command, d.value.result, d.value.status, g.value.running));
    }
  }
}
