/** The debug side of the GDB wrapper (bin/GDBWrapper/out/Handler.js): the
    IDE's commands become queue entries, the entries handed out are written
    to gdb, and gdb's output lines are buffered until the next `(gdb)`
    prompt, when the buffer is parsed against the running command and the
    response is sent back.

    The process, the socket and the line reader are outside the model: the
    session records what it writes to gdb (`written`) and the responses it
    sends (`sent`), and the caller feeds it gdb's lines one by one. */
module Handler {
  import opened JsText
  import opened GdbProtocol
  import opened CommandQueue
  import opened ExpressionValues
  import GdbTextParser

  /** An IDE request: its command name, its data text, and the breakpoint
      that `JSON.parse` makes of the data for `break` and
      `delete breakpoints`. */
  datatype Content = Content(command: string, data: string, bp: BaseBreakPoint)

  /** A queued command and its parameter, `None` when the source passes none. */
  type Call = (string, Option<string>)

  /** JavaScript's `'' + x` for an optional number or string. */
  function IntText(x: Option<int>): string {
    match x
    case None => "undefined"
    case Some(i) => IntToString(i)
  }

  function OptText(x: Option<string>): string {
    match x
    case None => "undefined"
    case Some(s) => s
  }

  /** The parameter of `break`: the quoted source, a colon and the line,
      then ` if ` and the condition only for a conditional breakpoint. */
  function BreakParams(bp: BaseBreakPoint): (r: string)
    ensures StartsWith(r, "\"" + bp.source + "\":" + IntText(bp.lineNum))
    ensures |r| == |bp.source| + 3 + |IntText(bp.lineNum)| + (if bp.isCondition then 4 + |OptText(bp.condition)| else 0)
  {
    var loc := "\"" + bp.source + "\":" + IntText(bp.lineNum);
    var r := loc + (if bp.isCondition then " if " + OptText(bp.condition) else "");
    assert r[..|loc|] == loc;
    r
  }

  /** The parameter of `file`: the path between quotes, backslashes doubled. */
  function FileParam(path: string): string {
    "\"" + DoubleBackslashes(path) + "\""
  }

  /** The run-control commands, each followed by the pseudo-command. */
  function RunControl(command: string): Option<string> {
    if command == "continue" then Some("continue")
    else if command == "step" then Some("step")
    else if command == "pause" then Some("monitor halt")
    else if command == "step over" then Some("n")
    else None
  }

  /** The entries `HandleDebug` adds for a request other than `init`, in
      order; `init` adds its `file` entry only once gdb has started. */
  function Calls(c: Content): (r: seq<Call>)
    ensures RunControl(c.command).Some? ==> r == [(RunControl(c.command).value, None), (BpHitCommand, None)]
    ensures c.command == "launch" ==>
      r == [("target remote", Some("localhost:2331")), ("monitor reset", None), ("load", None), ("undisplay", Some("y"))]
    ensures c.command == "delete breakpoints" && (c.bp.id.None? || c.bp.id == Some(0)) ==> r == []
    ensures |r| <= 4
  {
    var k := c.command;
    if k == "launch" then
      [("target remote", Some("localhost:2331")), ("monitor reset", None), ("load", None), ("undisplay", Some("y"))]
    else if k == "break" then [("break", Some(BreakParams(c.bp)))]
    else if k == "break main" then [("break", Some("main"))]
    else if k == "delete breakpoints" then
      (if c.bp.id.Some? && c.bp.id.value != 0 then [("delete breakpoints", Some(IntToString(c.bp.id.value)))] else [])
    else if RunControl(k).Some? then [(RunControl(k).value, None), (BpHitCommand, None)]
    else if k == "stop" then [([3 as char], None)]
    else if k == "info locals" || k == "info variables" || k == "info stack" || k == "info registers" then [(k, None)]
    else if k == "print" then [("print", Some(c.data))]
    else if k == "set" then [("set var", Some(c.data))]
    else if k == "x" then [("x", Some("/1xw " + c.data))]
    else []
  }

  /** The requests `HandleDebug` knows. */
  predicate IsKnown(command: string) {
    command in {"init", "launch", "break", "break main", "delete breakpoints", "pause", "continue", "stop",
                "step", "step over", "info locals", "info variables", "info stack", "print", "set",
                "info registers", "x"}
  }

  /** An unknown request adds nothing; every known one other than `init`
      and `delete breakpoints` adds at least one entry. */
  lemma {:induction false} CallsOfUnknown(c: Content)
    ensures !IsKnown(c.command) ==> Calls(c) == []
    ensures IsKnown(c.command) && c.command != "init" && c.command != "delete breakpoints" ==> Calls(c) != []
  {
  }

  function EntriesOf(calls: seq<Call>): seq<Entry> {
    seq(|calls|, i requires 0 <= i < |calls| => Entry(calls[i].0, ParamText(calls[i].1), None))
  }

  /** What `RunCmd` writes for the entries handed out, in order: every
      entry except the pseudo-command, as its command and its parameter. */
  function Written(issued: seq<Entry>): (r: seq<string>)
    ensures |r| <= |issued|
  {
    if issued == [] then []
    else
      var e := issued[|issued| - 1];
      Written(issued[..|issued| - 1]) + (if e.command == BpHitCommand then [] else [e.command + e.params])
  }

  /** `^\(gdb\)\s*$`: the prompt gdb prints when it waits for a command. */
  predicate IsPrompt(line: string) {
    StartsWith(line, "(gdb)") && forall i :: 5 <= i < |line| ==> IsSpace(line[i])
  }

  /** What `DebugResponse` sends when the parser threw. */
  function FailedResponse(command: string): GDBServerResponse {
    GDBServerResponse(command, Some(Values([])), ExecuteResult(false, None), None)
  }

  /** The response `DebugResponse` sends for the buffered lines: the parsed
      one, or the failure when the parser threw. */
  function ResponseFor(command: string, lines: seq<string>, rw: Rewriters): (r: GDBServerResponse)
    ensures r.command == command
  {
    match GdbTextParser.ParseResponse(command, lines, rw)
    case Ok(res) => res
    case Thrown(_) => FailedResponse(command)
  }

  function InitResponse(): GDBServerResponse {
    GDBServerResponse("init", None, ExecuteResult(true, None), None)
  }

  class Session {
    const exeQueue: ExecutableQueue
    const rw: Rewriters
    var isRunning: bool
    var resultList: seq<string>
    /** The path of an `init` whose start-up has not completed yet. */
    var pendingInit: Option<string>
    var written: seq<string>
    var sent: seq<GDBServerResponse>

    /** The queue is consistent and gdb has been sent exactly the entries
        handed out, without the pseudo-commands. */
    ghost predicate Valid()
      reads this, exeQueue, exeQueue.queue
    {
      exeQueue.Valid() && written == Written(exeQueue.issued)
    }

    constructor (rw: Rewriters)
      ensures Valid() && fresh(exeQueue) && fresh(exeQueue.queue)
      ensures exeQueue.queue.list == [] && exeQueue.issued == []
      ensures !isRunning && resultList == [] && pendingInit.None? && written == [] && sent == []
      ensures this.rw == rw
    {
      exeQueue := new ExecutableQueue();
      this.rw := rw;
      isRunning, resultList, pendingInit := false, [], None;
      written, sent := [], [];
    }

    /** `RunCmd`: the pseudo-command is never written to gdb. */
    method RunCmd(ran: Option<Entry>)
      modifies this`written
      ensures written == old(written) + (if ran.Some? && ran.value.command != BpHitCommand then [ran.value.command + ran.value.params] else [])
    {
      if ran.Some? && ran.value.command != BpHitCommand {
        written := written + [ran.value.command + ran.value.params];
      }
    }

    /** `exeQueue.Execute` with `RunCmd` as the callback. */
    method Exec(command: string, params: Option<string>)
      requires Valid()
      modifies this`written, exeQueue, exeQueue.queue
      ensures Valid()
      ensures exeQueue.added == old(exeQueue.added) + [Entry(command, ParamText(params), None)]
      ensures exeQueue.completed == old(exeQueue.completed)
    {
      ghost var before := exeQueue.issued;
      var ran := exeQueue.Execute(command, params, None);
      RunCmd(ran);
      assert exeQueue.issued == before + (if ran.Some? then [ran.value] else []);
      WrittenStep(before, ran);
    }

    /** `HandleDebug`: the request becomes its entries, in order; `init`
        starts gdb and waits for its first prompt. */
    method HandleDebug(c: Content)
      requires Valid()
      modifies this, exeQueue, exeQueue.queue
      ensures Valid()
      ensures exeQueue.added == old(exeQueue.added) + EntriesOf(Calls(c))
      ensures exeQueue.completed == old(exeQueue.completed)
      ensures c.command == "init" ==> !isRunning && resultList == [] && pendingInit == Some(c.data)
      ensures c.command != "init" ==> isRunning == old(isRunning) && resultList == old(resultList) && pendingInit == old(pendingInit)
      ensures sent == old(sent)
    {
      if c.command == "init" {
        isRunning, resultList := false, [];
        pendingInit := Some(c.data);
      } else {
        ExecCalls(Calls(c));
      }
    }

    /** The `exeQueue.Execute` calls of one request, in order. */
    method ExecCalls(calls: seq<Call>)
      requires Valid()
      modifies this`written, exeQueue, exeQueue.queue
      ensures Valid()
      ensures exeQueue.added == old(exeQueue.added) + EntriesOf(calls)
      ensures exeQueue.completed == old(exeQueue.completed)
      decreases |calls|
    {
      if calls != [] {
        ghost var before := exeQueue.added;
        var entry := Entry(calls[0].0, ParamText(calls[0].1), None);
        EntriesCons(calls);
        Exec(calls[0].0, calls[0].1);
        assert exeQueue.added == before + [entry];
        ExecCalls(calls[1..]);
        assert exeQueue.added == before + [entry] + EntriesOf(calls[1..]);
      }
    }

    /** `DebugResponse`: parse the buffer against the running command, send
        the response (an empty failure if the parser threw), clear the
        buffer and move to the next command. With nothing queued,
        `CurrentCommand` throws and nothing else happens. */
    method DebugResponse() returns (r: Outcome<GDBServerResponse>)
      requires Valid()
      modifies this, exeQueue, exeQueue.queue
      ensures Valid()
      ensures old(exeQueue.queue.list) == [] ==> r == Thrown("Has no command") && sent == old(sent) && resultList == old(resultList)
      ensures old(exeQueue.queue.list) != [] ==> r.Ok? && sent == old(sent) + [r.value] && resultList == []
      ensures old(exeQueue.queue.list) != [] ==>
        var command := old(exeQueue.queue.list)[0].command;
        r.value == ResponseFor(command, old(resultList), rw)
      ensures exeQueue.queue.list == if old(exeQueue.queue.list) == [] then [] else old(exeQueue.queue.list)[1..]
      ensures isRunning == old(isRunning) && pendingInit == old(pendingInit)
    {
      var command := exeQueue.CurrentCommand();
      if command.Thrown? {
        return Thrown(command.message);
      }
      var response := Respond(command.value);
      sent := sent + [response];
      resultList := [];
      RunNext();
      r := Ok(response);
    }

    /** The parser run on the buffered lines, a failure if it threw. */
    method Respond(command: string) returns (response: GDBServerResponse)
      ensures response == ResponseFor(command, resultList, rw)
    {
      var res := GdbTextParser.Parse(command, resultList, rw);
      response := if res.Ok? then res.value else FailedResponse(command);
    }

    /** `exeQueue.NotifyRunNext` with `RunCmd` as the callback. */
    method RunNext()
      requires Valid()
      modifies this`written, exeQueue, exeQueue.queue
      ensures Valid()
      ensures exeQueue.queue.list == if old(exeQueue.queue.list) == [] then [] else old(exeQueue.queue.list)[1..]
    {
      ghost var before := exeQueue.issued;
      var ran := exeQueue.NotifyRunNext();
      RunCmd(ran);
      assert exeQueue.issued == before + (if ran.Some? then [ran.value] else []);
      WrittenStep(before, ran);
    }

    /** The line handler installed by `Debug_start`. The first prompt marks
        gdb as started, sends the `init` response and queues `file`; each
        later prompt completes the running command; other lines are kept
        only once gdb has started. */
    method OnLine(line: string) returns (r: Outcome<()>)
      requires Valid()
      modifies this, exeQueue, exeQueue.queue
      ensures Valid()
      ensures !IsPrompt(line) ==> r.Ok? && isRunning == old(isRunning) && sent == old(sent)
      ensures !IsPrompt(line) ==> resultList == if old(isRunning) then old(resultList) + [line] else old(resultList)
      ensures !IsPrompt(line) ==> exeQueue.added == old(exeQueue.added) && exeQueue.queue.list == old(exeQueue.queue.list)
      ensures IsPrompt(line) && !old(isRunning) ==> r.Ok? && isRunning && resultList == old(resultList) && pendingInit.None?
      ensures IsPrompt(line) && !old(isRunning) ==>
        sent == old(sent) + (if old(pendingInit).Some? then [InitResponse()] else [])
      ensures IsPrompt(line) && !old(isRunning) ==>
        exeQueue.added == old(exeQueue.added) + (if old(pendingInit).Some? then [Entry("file", ParamText(Some(FileParam(old(pendingInit).value))), None)] else [])
      ensures IsPrompt(line) && old(isRunning) ==> isRunning && pendingInit == old(pendingInit)
      ensures IsPrompt(line) && old(isRunning) && old(exeQueue.queue.list) == [] ==>
        r == Thrown("Has no command") && sent == old(sent) && resultList == old(resultList) && exeQueue.queue.list == []
      ensures IsPrompt(line) && old(isRunning) && old(exeQueue.queue.list) != [] ==>
        r.Ok? && resultList == [] && exeQueue.queue.list == old(exeQueue.queue.list)[1..]
      ensures IsPrompt(line) && old(isRunning) && old(exeQueue.queue.list) != [] ==>
        var command := old(exeQueue.queue.list)[0].command;
        sent == old(sent) + [ResponseFor(command, old(resultList), rw)]
    {
      if IsPrompt(line) {
        if isRunning {
          var d := DebugResponse();
          r := if d.Ok? then Ok(()) else Thrown(d.message);
        } else {
          Started();
          r := Ok(());
        }
      } else {
        if isRunning {
          resultList := resultList + [line];
        }
        r := Ok(());
      }
    }

    /** gdb's first prompt: the session is running, and a pending `init`
        is answered and loads its program with `file`. */
    method Started()
      requires Valid()
      modifies this, exeQueue, exeQueue.queue
      ensures Valid()
      ensures isRunning && pendingInit.None? && resultList == old(resultList)
      ensures sent == old(sent) + (if old(pendingInit).Some? then [InitResponse()] else [])
      ensures exeQueue.added == old(exeQueue.added) + (if old(pendingInit).Some? then [Entry("file", ParamText(Some(FileParam(old(pendingInit).value))), None)] else [])
      ensures exeQueue.completed == old(exeQueue.completed)
    {
      isRunning := true;
      if pendingInit.Some? {
        sent := sent + [InitResponse()];
        Exec("file", Some(FileParam(pendingInit.value)));
        pendingInit := None;
      }
    }
  }

  lemma {:induction false} EntriesCons(calls: seq<Call>)
    requires calls != []
    ensures EntriesOf(calls) == [Entry(calls[0].0, ParamText(calls[0].1), None)] + EntriesOf(calls[1..])
  {
  }

  /** Handing out one more entry writes it, unless it is the
      pseudo-command. */
  lemma {:induction false} WrittenStep(before: seq<Entry>, ran: Option<Entry>)
    ensures Written(before + (if ran.Some? then [ran.value] else []))
         == Written(before) + (if ran.Some? && ran.value.command != BpHitCommand then [ran.value.command + ran.value.params] else [])
  {
    if ran.Some? {
      assert (before + [ran.value])[..|before|] == before;
    } else {
      assert before + [] == before;
    }
  }
}
