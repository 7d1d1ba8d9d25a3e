/** The top level of the current MI response parser
    (bin/GDBWrapper/out/GDBTextParser.js): the escape replacer, the status
    decoder, the routing of buffered lines by their first character and the
    per-command result extraction. `Parse` fills a response record line by
    line; the model states the record it ends with as a function of the
    command and the buffered lines. */
module GdbTextParser {
  import opened JsText
  import opened Seqs
  import opened GdbProtocol
  import opened ExpressionMatcher
  import opened ExpressionValues

  // ---------------------------------------------------------------------------
  // Unescaping

  /** `/\\n$/`: a trailing backslash-`n` escape is dropped. */
  function DropNewlineEscape(s: string): (r: string)
    ensures r == s || (EndsWith(s, "\\n") && s == r + "\\n")
  {
    if EndsWith(s, "\\n") then s[..|s| - 2] else s
  }

  /** `ESCReplacer.replace`: its five rewrites in key order: `\"`, `\'`,
      a doubled backslash, a trailing `\n` (deleted) and `\t` (a tab). */
  function EscReplace(s: string): string {
    var a := ReplaceAll(s, "\\\"", "\"");
    var b := ReplaceAll(a, "\\'", "'");
    var c := ReplaceAll(b, "\\\\", "\\");
    var d := DropNewlineEscape(c);
    ReplaceAll(d, "\\t", "\t")
  }

  /** Text without a backslash goes through the replacer unchanged. */
  lemma {:induction false} EscReplaceNoBackslash(s: string)
    requires '\\' !in s
    ensures EscReplace(s) == s
  {
    ReplaceAllMissing(s, "\\\"", "\"", '\\');
    ReplaceAllMissing(s, "\\'", "'", '\\');
    ReplaceAllMissing(s, "\\\\", "\\", '\\');
    assert |s| < 2 || s[|s| - 2] != '\\' by {
      if |s| >= 2 {
        assert s[|s| - 2] in s;
      }
    }
    ReplaceAllMissing(s, "\\t", "\t", '\\');
  }

  /** Each `q` preceded by a backslash, as gdb escapes quotes inside a
      C string. */
  function EscapeChar(s: string, q: char): (r: string)
    ensures |r| >= |s|
  {
    if s == [] then [] else (if s[0] == q then ['\\', q] else [s[0]]) + EscapeChar(s[1..], q)
  }

  lemma {:induction false} ReplaceAllEscaped(s: string, q: char)
    requires '\\' !in s && q != '\\'
    ensures ReplaceAll(EscapeChar(s, q), ['\\', q], [q]) == s
    decreases |s|
  {
    if s != [] {
      var rest := EscapeChar(s[1..], q);
      ReplaceAllEscaped(s[1..], q);
      if s[0] == q {
        assert EscapeChar(s, q) == ['\\', q] + rest;
        assert StartsWith(['\\', q] + rest, ['\\', q]);
        assert (['\\', q] + rest)[2..] == rest;
      } else {
        assert EscapeChar(s, q) == [s[0]] + rest;
        assert s[0] in s;
        assert !StartsWith([s[0]] + rest, ['\\', q]) by {
          if |[s[0]] + rest| >= 2 {
            assert ([s[0]] + rest)[..2][0] == s[0];
          }
        }
        assert ([s[0]] + rest)[1..] == rest;
      }
    }
  }

  /** A quoted string with its double quotes escaped, and no other
      backslash, comes out of the replacer as it was. */
  lemma {:induction false} EscReplaceOfEscapedQuotes(s: string)
    requires '\\' !in s
    ensures EscReplace(EscapeChar(s, '"')) == s
  {
    ReplaceAllEscaped(s, '"');
    assert "\\\"" == ['\\', '"'] && "\"" == ['"'];
    ReplaceAllMissing(s, "\\'", "'", '\\');
    ReplaceAllMissing(s, "\\\\", "\\", '\\');
    assert |s| < 2 || s[|s| - 2] != '\\' by {
      if |s| >= 2 {
        assert s[|s| - 2] in s;
      }
    }
    ReplaceAllMissing(s, "\\t", "\t", '\\');
  }

  /** `/(?<!\\)\\"/g`: a backslash-quote not preceded by a backslash (in the
      original text) becomes a quote. */
  function UnescapeQuotes(s: string, afterBackslash: bool): (r: string)
    ensures |r| <= |s|
  {
    if s == [] then []
    else if !afterBackslash && |s| >= 2 && s[0] == '\\' && s[1] == '"' then "\"" + UnescapeQuotes(s[2..], false)
    else [s[0]] + UnescapeQuotes(s[1..], s[0] == '\\')
  }

  /** Escaping the quotes of backslash-free text is undone. */
  lemma {:induction false} UnescapeEscapedQuotes(s: string, afterBackslash: bool)
    requires '\\' !in s
    requires s != [] && s[0] == '"' ==> !afterBackslash
    ensures UnescapeQuotes(EscapeChar(s, '"'), afterBackslash) == s
    decreases |s|
  {
    if s != [] {
      var rest := EscapeChar(s[1..], '"');
      UnescapeEscapedQuotes(s[1..], false);
      if s[0] == '"' {
        assert EscapeChar(s, '"') == ['\\', '"'] + rest;
        assert (['\\', '"'] + rest)[2..] == rest;
      } else {
        assert EscapeChar(s, '"') == [s[0]] + rest;
        assert ([s[0]] + rest)[1..] == rest;
      }
    }
  }

  /** The payload cleaning chosen by the command. */
  function CleanPayload(command: string, line: string): string {
    if command == "info locals" || command == "print" then UnescapeQuotes(DropNewlineEscape(line), false)
    else if command == "target remote" || command == BpHitCommand then DropNewlineEscape(line)
    else EscReplace(line)
  }

  /** `substr(1, length - 2)`: the outer quotes of a `~`/`&` record. */
  function StripQuotes(line: string): (r: string)
    ensures |line| >= 2 ==> line == [line[0]] + r + [line[|line| - 1]]
    ensures |line| < 2 ==> r == []
  {
    if |line| >= 2 then line[1..|line| - 1] else []
  }

  // ---------------------------------------------------------------------------
  // `ParseExecStatus`

  const ErrorPrefix: string := "error,msg="

  /** `/\\[0-9]+/g` replaced by the character whose code is those digits read
      in base 10. */
  function DecodeDecimalEscapes(s: string): (r: string)
    ensures |r| <= |s|
  {
    if s == [] then []
    else if |s| >= 2 && s[0] == '\\' && IsDigit(s[1]) then
      var d := Span(s[1..], IsDigit);
      [FromCharCode(RadixValue(s[1..1 + d], 10))] + DecodeDecimalEscapes(s[1 + d..])
    else [s[0]] + DecodeDecimalEscapes(s[1..])
  }

  /** `ParseExecStatus`: `error,msg=` followed by at least one character
      fails with that message, unescaped; anything else succeeds without one. */
  function ParseExecStatus(line: string): (r: ExecuteResult)
    ensures !r.isDone <==> StartsWith(line, ErrorPrefix) && |line| > |ErrorPrefix|
    ensures r.msg.Some? <==> !r.isDone
    ensures r.msg.Some? ==> |r.msg.value| <= |line| - |ErrorPrefix|
    ensures !r.isDone ==> r.msg == Some(DecodeDecimalEscapes(line[|ErrorPrefix|..]))
  {
    if StartsWith(line, ErrorPrefix) && |line| > |ErrorPrefix| then
      ExecuteResult(false, Some(DecodeDecimalEscapes(line[|ErrorPrefix|..])))
    else ExecuteResult(true, None)
  }

  /** Every character written as a backslash and its decimal code. */
  function DecimalEscaped(s: string): string {
    if s == [] then [] else "\\" + NatToString(s[0] as nat) + DecimalEscaped(s[1..])
  }

  /** A character that one UTF-16 code unit carries. */
  predicate IsBmpChar(c: char) { c as int < 0xD800 || 0xE000 <= c as int < 0x1_0000 }

  /** A backslash and a run of digits stand for one character. */
  lemma {:induction false} DecodeDigitsEscape(d: string, tail: string)
    requires d != [] && AllDigits(d) && (tail == [] || tail[0] == '\\')
    ensures DecodeDecimalEscapes("\\" + d + tail) == [FromCharCode(RadixValue(d, 10))] + DecodeDecimalEscapes(tail)
  {
    var s := "\\" + d + tail;
    assert s[1..] == d + tail;
    SpanOfConcat(d, tail, IsDigit);
    assert s[1..1 + |d|] == d;
    assert s[1 + |d|..] == tail;
  }

  lemma {:induction false} FromCharCodeOfBmp(c: char)
    requires IsBmpChar(c)
    ensures FromCharCode(c as nat) == c
  {
  }

  lemma {:induction false} DecimalEscapeStep(c: char, rest: string)
    requires IsBmpChar(c)
    ensures DecodeDecimalEscapes("\\" + NatToString(c as nat) + DecimalEscaped(rest))
         == [c] + DecodeDecimalEscapes(DecimalEscaped(rest))
  {
    var tail := DecimalEscaped(rest);
    assert tail == [] || tail[0] == '\\';
    DecodeDigitsEscape(NatToString(c as nat), tail);
    NatToStringValue(c as nat);
    FromCharCodeOfBmp(c);
  }

  /** Decoding undoes the decimal escaping of text whose characters each fit
      one code unit. */
  lemma {:induction false} DecodeDecimalEscaped(s: string)
    requires forall i :: 0 <= i < |s| ==> IsBmpChar(s[i])
    ensures DecodeDecimalEscapes(DecimalEscaped(s)) == s
    decreases |s|
  {
    if s != [] {
      DecimalEscapeStep(s[0], s[1..]);
      DecodeDecimalEscaped(s[1..]);
    }
  }

  /** A message without backslashes is kept as it is. */
  lemma {:induction false} DecodeDecimalEscapesPlain(s: string)
    requires '\\' !in s
    ensures DecodeDecimalEscapes(s) == s
    decreases |s|
  {
    if s != [] {
      DecodeDecimalEscapesPlain(s[1..]);
    }
  }

  /** A failure message written with decimal escapes is read back, and one
      without backslashes is kept. */
  lemma {:induction false} ExecStatusOfMessage(msg: string)
    requires msg != []
    ensures (forall i :: 0 <= i < |msg| ==> IsBmpChar(msg[i])) ==>
      ParseExecStatus(ErrorPrefix + DecimalEscaped(msg)) == ExecuteResult(false, Some(msg))
    ensures '\\' !in msg ==> ParseExecStatus(ErrorPrefix + msg) == ExecuteResult(false, Some(msg))
  {
    var e := DecimalEscaped(msg);
    assert e[0] == '\\';
    assert (ErrorPrefix + e)[|ErrorPrefix|..] == e;
    assert (ErrorPrefix + msg)[|ErrorPrefix|..] == msg;
    if forall i :: 0 <= i < |msg| ==> IsBmpChar(msg[i]) {
      DecodeDecimalEscaped(msg);
    }
    if '\\' !in msg {
      DecodeDecimalEscapesPlain(msg);
    }
  }

  // ---------------------------------------------------------------------------
  // `ParseToRunningStatus`

  const RunningNullMessage: string := "Cannot read properties of null (reading '2')"

  /** `^(\w+),(.+)$` on the trimmed line: the async class and the text of its
      results; without that shape reading the failed match throws. */
  /** `^(\w+),(.+)$` on trimmed text: a word, a comma, and at least one
      more character. */
  function SplitAsyncRecord(t: string): (r: Option<(string, string)>)
    ensures r.Some? ==> t == r.value.0 + "," + r.value.1
    ensures r.Some? ==> r.value.0 != [] && r.value.1 != [] && forall i :: 0 <= i < |r.value.0| ==> IsWordChar(r.value.0[i])
  {
    var w := Span(t, IsWordChar);
    if 1 <= w && w + 1 < |t| && t[w] == ',' then
      assert t == t[..w] + "," + t[w + 1..];
      Some((t[..w], t[w + 1..]))
    else None
  }

  /** `ParseToRunningStatus`: the async class and the text of its results;
      without that shape, reading the failed match throws. */
  function ParseToRunningStatus(line: string): (r: Outcome<RunningStatus>)
    ensures r.Thrown? <==> SplitAsyncRecord(Trim(line)).None?
    ensures r.Thrown? ==> r.message == RunningNullMessage
  {
    match SplitAsyncRecord(Trim(line))
    case None => Thrown(RunningNullMessage)
    case Some((kind, info)) => Ok(RunningStatus(kind, info))
  }

  /** A word, a comma and the results split back into those parts. */
  lemma {:induction false} SplitAsyncRecordOf(kind: string, info: string)
    requires kind != [] && forall i :: 0 <= i < |kind| ==> IsWordChar(kind[i])
    requires info != []
    ensures SplitAsyncRecord(kind + "," + info) == Some((kind, info))
  {
    var t := kind + "," + info;
    assert ("," + info)[0] == ',' && !IsWordChar(',');
    SpanOfConcat(kind, "," + info, IsWordChar);
    assert t[|kind|] == ',';
    assert t[..|kind|] == kind;
    assert t[|kind| + 1..] == info;
  }

  /** A record whose class is one word splits back into that word and its
      results. */
  lemma {:induction false} RunningStatusOf(kind: string, info: string)
    requires kind != [] && forall i :: 0 <= i < |kind| ==> IsWordChar(kind[i])
    requires info != [] && !IsSpace(info[|info| - 1])
    ensures ParseToRunningStatus(kind + "," + info) == Ok(RunningStatus(kind, info))
  {
    var t := kind + "," + info;
    assert IsWordChar(t[0]);
    TrimOfTrimmed(t);
    SplitAsyncRecordOf(kind, info);
  }

  // ---------------------------------------------------------------------------
  // Routing the buffered lines

  /** What `Parse` gathers from the lines: the status, the last async
      record, and the console and log payloads in order. */
  datatype Gathered = Gathered(status: ExecuteResult, running: Option<RunningStatus>, console: seq<string>)

  const Initial: Gathered := Gathered(ExecuteResult(true, None), None, [])

  /** One buffered line, routed by its first character. */
  function GatherLine(command: string, acc: Gathered, raw: string): Outcome<Gathered> {
    if raw == [] then Ok(acc)
    else RouteRecord(raw[0], CleanPayload(command, RecordText(raw)), acc)
  }

  /** The text after the flag; console and log payloads lose their quotes. */
  function RecordText(raw: string): string
    requires raw != []
  {
    if raw[0] == '~' || raw[0] == '&' then StripQuotes(raw[1..]) else raw[1..]
  }

  /** Where the cleaned payload of a record with this flag goes. */
  function RouteRecord(flag: char, clean: string, acc: Gathered): Outcome<Gathered> {
    if flag == '*' then
      match ParseToRunningStatus(clean)
      case Thrown(m) => Thrown(m)
      case Ok(st) => Ok(acc.(running := Some(st)))
    else if flag == '^' then Ok(acc.(status := ParseExecStatus(clean)))
    else if flag == '~' || flag == '&' then Ok(acc.(console := acc.console + [clean]))
    else Ok(acc)
  }

  /** The line is a record with this flag. */
  predicate HasFlag(raw: string, flag: char) { raw != [] && raw[0] == flag }

  /** The position of the last record with this flag, if there is one. */
  function LastRecord(raws: seq<string>, flag: char): (r: Option<nat>)
    ensures r.Some? ==> r.value < |raws| && HasFlag(raws[r.value], flag)
    ensures r.Some? ==> forall j :: r.value < j < |raws| ==> !HasFlag(raws[j], flag)
    ensures r.None? <==> forall j :: 0 <= j < |raws| ==> !HasFlag(raws[j], flag)
    decreases |raws|
  {
    if raws == [] then None
    else if HasFlag(raws[|raws| - 1], flag) then Some(|raws| - 1)
    else
      var r := LastRecord(raws[..|raws| - 1], flag);
      assert forall j :: 0 <= j < |raws| - 1 ==> raws[..|raws| - 1][j] == raws[j];
      r
  }

  /** The running status a `*` record gives, read from its cleaned payload. */
  function AsyncOf(command: string, raw: string): Outcome<RunningStatus>
    requires raw != []
  {
    ParseToRunningStatus(CleanPayload(command, raw[1..]))
  }

  /** A `*` record that does not have the shape of an async record. */
  function AsyncFails(command: string): string -> bool {
    raw => HasFlag(raw, '*') && AsyncOf(command, raw).Thrown?
  }

  /** Some `*` record does not have the shape of an async record. */
  predicate SomeAsyncFails(command: string, raws: seq<string>) {
    Any(raws, AsyncFails(command))
  }

  /** The status of the last `^` record, or a success without a message. */
  function LastStatus(command: string, raws: seq<string>): (r: ExecuteResult)
    ensures r.isDone <==> r.msg.None?
  {
    match LastRecord(raws, '^')
    case None => ExecuteResult(true, None)
    case Some(i) => ParseExecStatus(CleanPayload(command, raws[i][1..]))
  }

  /** The running status of the last `*` record, if there is one. */
  function LastRunning(command: string, raws: seq<string>): Option<RunningStatus> {
    match LastRecord(raws, '*')
    case None => None
    case Some(i) => if AsyncOf(command, raws[i]).Ok? then Some(AsyncOf(command, raws[i]).value) else None
  }

  /** The walk throws exactly when some `*` record is malformed; otherwise
      the status is the last `^` record's and the running status the last
      `*` record's. */
  function GatherLines(command: string, raws: seq<string>): (r: Outcome<Gathered>)
    ensures r.Thrown? <==> SomeAsyncFails(command, raws)
    ensures r.Thrown? ==> r.message == RunningNullMessage
    ensures r.Ok? ==> r.value.status == LastStatus(command, raws)
    ensures r.Ok? ==> r.value.running == LastRunning(command, raws)
    ensures r.Ok? ==> |r.value.console| <= |raws|
    decreases |raws|
  {
    if raws == [] then Ok(Initial)
    else
      var init := raws[..|raws| - 1];
      var last := raws[|raws| - 1];
      match GatherLines(command, init)
      case Thrown(m) =>
        GatherStepThrown(command, raws);
        Thrown(m)
      case Ok(acc) =>
        GatherStepOk(command, raws, acc);
        GatherLine(command, acc, last)
  }

  /** A malformed `*` record among the first lines is one among all. */
  lemma {:induction false} GatherStepThrown(command: string, raws: seq<string>)
    requires raws != [] && SomeAsyncFails(command, raws[..|raws| - 1])
    ensures SomeAsyncFails(command, raws)
  {
    AnyStep(raws, AsyncFails(command));
  }

  /** One more line after a walk that did not throw. */
  lemma {:induction false} GatherStepOk(command: string, raws: seq<string>, acc: Gathered)
    requires raws != [] && !SomeAsyncFails(command, raws[..|raws| - 1])
    requires acc.status == LastStatus(command, raws[..|raws| - 1])
    requires acc.running == LastRunning(command, raws[..|raws| - 1])
    ensures var r := GatherLine(command, acc, raws[|raws| - 1]);
      && (r.Thrown? <==> SomeAsyncFails(command, raws))
      && (r.Thrown? ==> r.message == RunningNullMessage)
      && (r.Ok? ==> r.value.status == LastStatus(command, raws))
      && (r.Ok? ==> r.value.running == LastRunning(command, raws))
      && (r.Ok? ==> |r.value.console| <= |acc.console| + 1)
  {
    var last := raws[|raws| - 1];
    AsyncFailsStep(command, raws);
    LastStatusStep(command, raws);
    LastRunningStep(command, raws);
    GatherLineEffect(command, acc, last);
  }

  /** What one line does to the gathered state, by its flag. */
  lemma {:induction false} GatherLineEffect(command: string, acc: Gathered, raw: string)
    ensures var r := GatherLine(command, acc, raw);
      && (r.Thrown? <==> HasFlag(raw, '*') && AsyncOf(command, raw).Thrown?)
      && (r.Thrown? ==> r.message == RunningNullMessage)
      && (r.Ok? ==> r.value.status == if HasFlag(raw, '^') then ParseExecStatus(CleanPayload(command, raw[1..])) else acc.status)
      && (r.Ok? ==> r.value.running == if HasFlag(raw, '*') then Some(AsyncOf(command, raw).value) else acc.running)
      && (r.Ok? ==> |r.value.console| <= |acc.console| + 1)
  {
    if raw != [] {
      var clean := CleanPayload(command, RecordText(raw));
      if raw[0] == '*' || raw[0] == '^' {
        assert clean == CleanPayload(command, raw[1..]);
      }
    }
  }

  /** A malformed `*` record is among all the lines exactly when it is the
      last line or among the others. */
  lemma {:induction false} AsyncFailsStep(command: string, raws: seq<string>)
    requires raws != []
    ensures var last := raws[|raws| - 1];
      SomeAsyncFails(command, raws) <==>
        SomeAsyncFails(command, raws[..|raws| - 1]) || (HasFlag(last, '*') && AsyncOf(command, last).Thrown?)
  {
    AnyStep(raws, AsyncFails(command));
  }

  /** The last record with a flag is the last line when it has that flag,
      and otherwise the last such record among the others. */
  lemma {:induction false} LastRecordStep(raws: seq<string>, flag: char)
    requires raws != []
    ensures HasFlag(raws[|raws| - 1], flag) ==> LastRecord(raws, flag) == Some(|raws| - 1)
    ensures !HasFlag(raws[|raws| - 1], flag) ==> LastRecord(raws, flag) == LastRecord(raws[..|raws| - 1], flag)
  {
  }

  lemma {:induction false} LastStatusStep(command: string, raws: seq<string>)
    requires raws != []
    ensures var last := raws[|raws| - 1];
      LastStatus(command, raws) == if HasFlag(last, '^') then ParseExecStatus(CleanPayload(command, last[1..]))
        else LastStatus(command, raws[..|raws| - 1])
  {
    LastRecordStep(raws, '^');
    var r := LastRecord(raws[..|raws| - 1], '^');
    if r.Some? {
      assert raws[..|raws| - 1][r.value] == raws[r.value];
    }
  }

  lemma {:induction false} LastRunningStep(command: string, raws: seq<string>)
    requires raws != []
    ensures var last := raws[|raws| - 1];
      LastRunning(command, raws) == if HasFlag(last, '*') then
        (if AsyncOf(command, last).Ok? then Some(AsyncOf(command, last).value) else None)
        else LastRunning(command, raws[..|raws| - 1])
  {
    LastRecordStep(raws, '*');
    var r := LastRecord(raws[..|raws| - 1], '*');
    if r.Some? {
      assert raws[..|raws| - 1][r.value] == raws[r.value];
    }
  }

  /** The cleaned payload of a `~` or `&` record. */
  function ConsolePayload(command: string): string -> Option<string> {
    raw => if raw != [] && (raw[0] == '~' || raw[0] == '&') then Some(CleanPayload(command, StripQuotes(raw[1..]))) else None
  }

  lemma {:induction false} GatherLineConsole(command: string, acc: Gathered, raw: string)
    requires GatherLine(command, acc, raw).Ok?
    ensures var p := ConsolePayload(command)(raw);
      GatherLine(command, acc, raw).value.console == acc.console + (if p.Some? then [p.value] else [])
  {
    if raw != [] {
      RouteConsole(raw[0], CleanPayload(command, RecordText(raw)), acc);
    }
  }

  /** Only `~` and `&` records add to the console list, one payload each. */
  lemma {:induction false} RouteConsole(flag: char, clean: string, acc: Gathered)
    requires RouteRecord(flag, clean, acc).Ok?
    ensures RouteRecord(flag, clean, acc).value.console
         == acc.console + (if flag == '~' || flag == '&' then [clean] else [])
  {
  }

  /** The console list is exactly the cleaned `~`/`&` payloads, in the
      order the lines came. */
  lemma {:induction false} GatheredConsole(command: string, raws: seq<string>)
    requires GatherLines(command, raws).Ok?
    ensures GatherLines(command, raws).value.console == FilterMap(raws, ConsolePayload(command))
    decreases |raws|
  {
    if raws != [] {
      var init := raws[..|raws| - 1];
      var last := raws[|raws| - 1];
      assert GatherLines(command, init).Ok?;
      GatheredConsole(command, init);
      GatherLineConsole(command, GatherLines(command, init).value, last);
    }
  }

  // ---------------------------------------------------------------------------
  // `ParseToResult`

  const NoSymbolsMessage: string := "No debugging symbols found !"

  /** The commands whose output `ParseToResult` reads. */
  const DecodedCommands: set<string> :=
    {"file", "info variables", "info registers", "info locals", "info stack", "print", "break", "x"}

  /** What `ParseToResult` leaves in the response: the result and the status. */
  datatype Decoded = Decoded(result: Option<Payload>, status: ExecuteResult)

  function MemoryValues(lines: seq<string>): Option<seq<Expression>> {
    var found := FilterMap(lines, ParseMemoryLine);
    if found == [] then None else Some(found)
  }

  /** `break`: the last breakpoint reported, or a failure listing the
      console lines. */
  function BreakDecoded(status: ExecuteResult, lines: seq<string>): Decoded {
    match LastBreakpoint(lines)
    case None => Decoded(None, ExecuteResult(false, Some(Join(lines, " ; "))))
    case Some(bp) => Decoded(Some(Breakpoint(bp)), status)
  }

  /** `ParseToResult` on a successful status: the extraction chosen by the
      command; only the value decoding of `print` and `info locals` can
      throw. */
  function ResultOf(command: string, status: ExecuteResult, lines: seq<string>, rw: Rewriters): (r: Outcome<Decoded>)
    requires status.isDone && status.msg.None?
    ensures r.Thrown? ==> command == "info locals" || command == "print"
    ensures r.Ok? ==> (r.value.status.isDone <==> r.value.status.msg.None?)
    ensures r.Ok? && r.value.result.Some? ==> r.value.status == status
    ensures command == "file" ==>
      && r.Ok? && r.value.result.None?
      && (r.value.status.isDone <==> forall i :: 0 <= i < |lines| ==> !MentionsNoSymbols(lines[i]))
      && (!r.value.status.isDone ==> r.value.status.msg == Some(NoSymbolsMessage))
    ensures command == "info variables" ==> r == Ok(Decoded(Some(Variables(FilterMap(lines, ParseVariableLine))), status))
    ensures command == "info registers" ==> r == Ok(Decoded(Some(Values(FilterMap(lines, ParseRegisterLine))), status))
    ensures command == "info stack" ==> r == Ok(Decoded(Some(Frames(FilterMap(lines, ParseStackLine))), status))
    ensures command == "x" ==>
      && r.Ok? && r.value.status == status
      && (r.value.result.None? <==> forall i :: 0 <= i < |lines| ==> ParseMemoryLine(lines[i]).None?)
      && (r.value.result.Some? ==> r.value.result.value == Values(FilterMap(lines, ParseMemoryLine)))
    ensures command == "break" ==> r == Ok(BreakDecoded(status, lines))
    ensures command == "info locals" || command == "print" ==>
      && (r.Thrown? <==> ValuesOf(lines, rw).Thrown?)
      && (r.Thrown? ==> r.message == ValuesOf(lines, rw).message)
      && (r.Ok? ==> r.value.status == status)
      && (r.Ok? ==> (r.value.result.None? <==> ValuesOf(lines, rw).value.None?))
      && (r.Ok? && r.value.result.Some? ==> r.value.result.value == Values(ValuesOf(lines, rw).value.value))
    ensures command !in DecodedCommands ==> r == Ok(Decoded(None, status))
  {
    FilterMapEmpty(lines, ParseMemoryLine);
    CommandsDiffer();
    if command == "file" then
      if exists i :: 0 <= i < |lines| && MentionsNoSymbols(lines[i]) then Ok(Decoded(None, ExecuteResult(false, Some(NoSymbolsMessage))))
      else Ok(Decoded(None, status))
    else if command == "info variables" then Ok(Decoded(Some(Variables(FilterMap(lines, ParseVariableLine))), status))
    else if command == "info registers" then Ok(Decoded(Some(Values(FilterMap(lines, ParseRegisterLine))), status))
    else if command == "info locals" || command == "print" then
      match ValuesOf(lines, rw)
      case Thrown(m) => Thrown(m)
      case Ok(v) => Ok(Decoded(if v.Some? then Some(Values(v.value)) else None, status))
    else if command == "info stack" then Ok(Decoded(Some(Frames(FilterMap(lines, ParseStackLine))), status))
    else if command == "break" then Ok(BreakDecoded(status, lines))
    else if command == "x" then
      var m := MemoryValues(lines);
      Ok(Decoded(if m.Some? then Some(Values(m.value)) else None, status))
    else Ok(Decoded(None, status))
  }

  /** The decoded commands of equal length differ in their first letter. */
  lemma {:induction false} CommandsDiffer()
    ensures "info variables" != "info registers" && "print" != "break"
  {
    assert "info variables"[5] != "info registers"[5];
    assert "print"[0] != "break"[0];
  }

  method ParseToResult(command: string, status: ExecuteResult, lines: seq<string>, rw: Rewriters) returns (r: Outcome<Decoded>)
    requires status.isDone && status.msg.None?
    ensures r == ResultOf(command, status, lines, rw)
  {
    if command == "file" {
      var found := IsFileNoSymbol(lines);
      r := Ok(Decoded(None, if found then ExecuteResult(false, Some(NoSymbolsMessage)) else status));
    } else if command == "info variables" {
      var defs := ParseToVariablesDefine(lines);
      r := Ok(Decoded(Some(Variables(defs)), status));
    } else if command == "info registers" {
      var regs := ParseToRegisterValue(lines);
      r := Ok(Decoded(Some(Values(regs)), status));
    } else if command == "info locals" || command == "print" {
      var v := ParseToValue(lines, rw);
      if v.Thrown? {
        r := Thrown(v.message);
      } else {
        r := Ok(Decoded(if v.value.Some? then Some(Values(v.value.value)) else None, status));
      }
    } else if command == "info stack" {
      var frames := ParseToStacks(lines);
      r := Ok(Decoded(Some(Frames(frames)), status));
    } else if command == "break" {
      var bp := ParseToBreakpointInfo(lines);
      if bp.None? {
        r := Ok(Decoded(None, ExecuteResult(false, Some(Join(lines, " ; ")))));
      } else {
        r := Ok(Decoded(Some(Breakpoint(bp.value)), status));
      }
    } else if command == "x" {
      var m := ParseToMemoryValue(lines);
      FilterMapEmpty(lines, ParseMemoryLine);
      r := Ok(Decoded(if m.Some? then Some(Values(m.value)) else None, status));
    } else {
      r := Ok(Decoded(None, status));
    }
  }

  /** `break` fails, listing the console lines, exactly when no line reports
      a breakpoint; otherwise it carries the last one reported. */
  lemma {:induction false} BreakResult(status: ExecuteResult, lines: seq<string>)
    ensures var d := BreakDecoded(status, lines);
      (d.status == ExecuteResult(false, Some(Join(lines, " ; "))) && d.result.None?)
        <==> forall i :: 0 <= i < |lines| ==> ParseBreakpointLine(lines[i]).None?
    ensures var d := BreakDecoded(status, lines);
      d.result.Some? ==> d.status == status && exists i :: 0 <= i < |lines| && ParseBreakpointLine(lines[i]) == Some(d.result.value.bp)
  {
    BreakFails(status, lines);
    BreakFound(status, lines);
  }

  lemma {:induction false} BreakFails(status: ExecuteResult, lines: seq<string>)
    ensures var d := BreakDecoded(status, lines);
      (d.status == ExecuteResult(false, Some(Join(lines, " ; "))) && d.result.None?)
        <==> forall i :: 0 <= i < |lines| ==> ParseBreakpointLine(lines[i]).None?
  {
    FilterMapEmpty(lines, ParseBreakpointLine);
  }

  lemma {:induction false} BreakFound(status: ExecuteResult, lines: seq<string>)
    ensures var d := BreakDecoded(status, lines);
      d.result.Some? ==> d.status == status && exists i :: 0 <= i < |lines| && ParseBreakpointLine(lines[i]) == Some(d.result.value.bp)
  {
    var found := FilterMap(lines, ParseBreakpointLine);
    if found != [] {
      FilterMapMember(lines, ParseBreakpointLine, |found| - 1);
    }
  }

  // ---------------------------------------------------------------------------
  // `Parse`

  /** Commands whose output is never decoded. */
  predicate SkipsDecoding(command: string) { command == BpHitCommand || command == "target remote" }

  /** The lines `Parse` walks: all but the first. */
  function Records(lines: seq<string>): (r: seq<string>)
    ensures lines != [] ==> lines == [lines[0]] + r
  {
    if lines == [] then [] else lines[1..]
  }

  /** The response `Parse` returns, or the exception a malformed `*` record
      raises (outside the `try`). The status is the last `^` record's, the
      running status the last `*` record's; an exception of the decoding
      becomes a failed status carrying its message. */
  function ParseResponse(command: string, lines: seq<string>, rw: Rewriters): (r: Outcome<GDBServerResponse>)
    ensures r.Thrown? <==> SomeAsyncFails(command, Records(lines))
    ensures r.Thrown? ==> r.message == RunningNullMessage
    ensures r.Ok? ==> r.value.command == command && r.value.runningStatus == LastRunning(command, Records(lines))
    ensures r.Ok? && SkipsDecoding(command) ==> r.value.result.None?
    ensures r.Ok? ==> (r.value.status.isDone <==> r.value.status.msg.None?)
    ensures r.Ok? && r.value.result.Some? ==> r.value.status.isDone
    ensures r.Ok? && (SkipsDecoding(command) || !LastStatus(command, Records(lines)).isDone) ==>
      r.value.result.None? && r.value.status == LastStatus(command, Records(lines))
    ensures r.Ok? && !SkipsDecoding(command) && LastStatus(command, Records(lines)).isDone ==>
      var d := ResultOf(command, LastStatus(command, Records(lines)), FilterMap(Records(lines), ConsolePayload(command)), rw);
      && (d.Thrown? ==> r.value.result.None? && r.value.status == ExecuteResult(false, Some(d.message)))
      && (d.Ok? ==> r.value.result == d.value.result && r.value.status == d.value.status)
  {
    var raws := Records(lines);
    match GatherLines(command, raws)
    case Thrown(m) => Thrown(m)
    case Ok(g) =>
      GatheredConsole(command, raws);
      if SkipsDecoding(command) || !g.status.isDone then Ok(GDBServerResponse(command, None, g.status, g.running))
      else match ResultOf(command, g.status, g.console, rw)
        case Thrown(m) => Ok(GDBServerResponse(command, None, ExecuteResult(false, Some(m)), g.running))
        case Ok(d) => Ok(GDBServerResponse(command, d.result, d.status, g.running))
  }

  /** The `forEach` over the buffered lines. */
  method Gather(command: string, raws: seq<string>) returns (r: Outcome<Gathered>)
    ensures r == GatherLines(command, raws)
  {
    var status := ExecuteResult(true, None);
    var running: Option<RunningStatus> := None;
    var console: seq<string> := [];
    var i := 0;
    while i < |raws|
      invariant 0 <= i <= |raws|
      invariant GatherLines(command, raws[..i]) == Ok(Gathered(status, running, console))
    {
      GatherNext(command, raws, i, Gathered(status, running, console));
      var raw := raws[i];
      if raw != [] {
        var flag := raw[0];
        var line := if flag == '~' || flag == '&' then StripQuotes(raw[1..]) else raw[1..];
        line := CleanPayload(command, line);
        if flag == '*' {
          var st := ParseToRunningStatus(line);
          if st.Thrown? {
            GatherThrownPrefix(command, raws, i + 1);
            return Thrown(st.message);
          }
          running := Some(st.value);
        } else if flag == '^' {
          status := ParseExecStatus(line);
        } else if flag == '~' || flag == '&' {
          console := console + [line];
        }
      }
      i := i + 1;
    }
    assert raws[..|raws|] == raws;
    r := Ok(Gathered(status, running, console));
  }

  /** The first line never matters. */
  lemma {:induction false} ParseResponseSkipsFirst(command: string, first: string, other: string, rest: seq<string>, rw: Rewriters)
    ensures ParseResponse(command, [first] + rest, rw) == ParseResponse(command, [other] + rest, rw)
    ensures ParseResponse(command, [first], rw) == ParseResponse(command, [], rw)
  {
    assert Records([first] + rest) == rest == Records([other] + rest);
    assert Records([first]) == [] == Records([]);
  }

  method Parse(command: string, lines: seq<string>, rw: Rewriters) returns (r: Outcome<GDBServerResponse>)
    ensures r == ParseResponse(command, lines, rw)
  {
    var raws := if lines == [] then [] else lines[1..];
    var g := Gather(command, raws);
    if g.Thrown? {
      return Thrown(g.message);
    }
    var status, running, console := g.value.status, g.value.running, g.value.console;
    if SkipsDecoding(command) || !status.isDone {
      return Ok(GDBServerResponse(command, None, status, running));
    }
    var d := ParseToResult(command, status, console, rw);
    if d.Thrown? {
      r := Ok(GDBServerResponse(command, None, ExecuteResult(false, Some(d.message)), running));
    } else {
      r := Ok(GDBServerResponse(command, d.value.result, d.value.status, running));
    }
  }

  /** One more line of a walk that has not thrown. */
  lemma {:induction false} GatherNext(command: string, raws: seq<string>, i: nat, acc: Gathered)
    requires i < |raws| && GatherLines(command, raws[..i]) == Ok(acc)
    ensures GatherLines(command, raws[..i + 1]) == GatherLine(command, acc, raws[i])
  {
    var p := raws[..i + 1];
    assert p[..|p| - 1] == raws[..i];
  }

  /** Once a line has thrown, later lines do not matter. */
  lemma {:induction false} GatherThrownPrefix(command: string, raws: seq<string>, n: nat)
    requires n <= |raws| && GatherLines(command, raws[..n]).Thrown?
    ensures GatherLines(command, raws) == GatherLines(command, raws[..n])
  {
    forall k | n < k <= |raws| && GatherLines(command, raws[..k - 1]).Thrown?
      ensures GatherLines(command, raws[..k]) == GatherLines(command, raws[..k - 1])
    {
      GatherThrownStep(command, raws, k);
    }
    ThrownStays(xs => GatherLines(command, xs), raws, n);
  }

  /** A line after one that threw leaves the outcome as it was. */
  lemma {:induction false} GatherThrownStep(command: string, raws: seq<string>, k: nat)
    requires 0 < k <= |raws| && GatherLines(command, raws[..k - 1]).Thrown?
    ensures GatherLines(command, raws[..k]) == GatherLines(command, raws[..k - 1])
  {
    var p := raws[..k];
    assert p[..|p| - 1] == raws[..k - 1];
  }
}
