/** The parts of the debug runtime (src/Runtime.ts) that decide something
    without waiting on a connection: the launch-argument check, the
    breakpoint records, the rule that turns a failed response into a
    disconnect, the stack-frame filter, the guess of a value's type and
    the path clean-up of `CreateSource`.

    The runtime talks to gdb through promises; a value a promise delivers
    (the response to `break`, the frames of `info stack`) is a parameter
    here. Whether a file exists, `File.ToUnixPath` and `Path.basename` are
    outside the model and are passed in. */
module Runtime {
  import opened JsText
  import opened Seqs
  import opened GdbProtocol
  import opened LogAnalyzer
  import opened File
  import ExpressionValues

  // ---------------------------------------------------------------------------
  // LaunchConfigChecker.Check

  /** The two optional properties of the launch request that `Check` reads. */
  datatype LaunchArgs = LaunchArgs(program: Option<string>, svdPath: Option<string>)

  /** `CheckResult`. */
  datatype CheckResult = CheckResult(success: bool, msg: Option<Message>)

  /** An absent or empty path counts as not given. */
  predicate Given(path: Option<string>) {
    path.Some? && path.value != ""
  }

  /** The English entries of the string table that `Check` uses. */
  const InvalidElfFilePath: string := "Invalid elf file path"
  const InvalidSvdFilePath: string := "Invalid svd file path"
  const ProgramNotFound: string := "Not found 'program' in 'launch.json', can't launch debugger !"

  function Warning(content: string): Message {
    Message("Warning", None, content, "string", None)
  }

  /** `Check`: a missing or non-existent program fails with a warning; a
      given SVD path that does not exist then replaces the warning and, as
      written, also makes the check succeed. */
  method Check(config: LaunchArgs, exists_: string -> bool) returns (r: CheckResult)
    ensures r.success <==> (Given(config.program) && exists_(config.program.value))
                           || (Given(config.svdPath) && !exists_(config.svdPath.value))
    ensures r.msg.None? <==> Given(config.program) && exists_(config.program.value)
                             && !(Given(config.svdPath) && !exists_(config.svdPath.value))
    ensures Given(config.svdPath) && !exists_(config.svdPath.value) ==> r.msg == Some(Warning(InvalidSvdFilePath + " !"))
    ensures !(Given(config.svdPath) && !exists_(config.svdPath.value)) ==>
      (!Given(config.program) ==> r.msg == Some(Warning(ProgramNotFound)))
      && (Given(config.program) && !exists_(config.program.value) ==> r.msg == Some(Warning(InvalidElfFilePath + " !")))
  {
    r := CheckResult(true, None);
    if Given(config.program) {
      if !exists_(config.program.value) {
        r := r.(success := false, msg := Some(Warning(InvalidElfFilePath + " !")));
      }
    } else {
      r := r.(success := false, msg := Some(Warning(ProgramNotFound)));
    }
    if Given(config.svdPath) {
      if !exists_(config.svdPath.value) {
        r := r.(success := true, msg := Some(Warning(InvalidSvdFilePath + " !")));
      }
    }
  }

  // ---------------------------------------------------------------------------
  // Breakpoints

  /** A breakpoint as `PreSetBreakpoints` records it: no id, not verified. */
  function PendingBreakpoint(path: string, line: int): BaseBreakPoint {
    BaseBreakPoint(path, false, None, Some(line), false, None)
  }

  /** What `setBreakpoint` resolves to once `break` answered with `res`: id
      0 and unverified without an answer, otherwise the answer's id, line
      and verification; the source is always the requested path. */
  function SetBreakpoint(path: string, line: int, res: Option<BaseBreakPoint>): (bp: BaseBreakPoint)
    ensures bp.source == path && !bp.isCondition && bp.condition.None?
    ensures res.None? ==> bp.id == Some(0) && bp.lineNum == Some(line) && !bp.verified
    ensures res.Some? ==> bp.id == res.value.id && bp.lineNum == res.value.lineNum && bp.verified == res.value.verified
  {
    var breakpoint := BaseBreakPoint(path, false, Some(0), Some(line), false, None);
    match res
    case None => breakpoint
    case Some(b) => breakpoint.(id := b.id, lineNum := b.lineNum, verified := b.verified)
  }

  /** What `Disconnect` and the `'output'` event a response causes. */
  datatype Reaction = Reaction(output: Option<string>, disconnect: bool)

  /** The commands whose failure ends the session. */
  const DisconnectCommands: set<string> := {"init", "launch", BpHitCommand, "step", "continue", "step over", "file"}

  /** The end of `HandleDebugResponse`: a failed response that carries a
      non-empty message is reported on stderr, and ends the session only
      for the commands that start or move the target. */
  function FailureReaction(response: GDBServerResponse): (r: Reaction)
    ensures r.output.Some? <==> !response.status.isDone && Given(response.status.msg)
    ensures r.output.Some? ==> r.output.value == "[GDBWrapper] : " + response.status.msg.value
    ensures r.disconnect <==> r.output.Some? && response.command in DisconnectCommands
  {
    if !response.status.isDone && Given(response.status.msg) then
      var c := response.command;
      Reaction(Some("[GDBWrapper] : " + response.status.msg.value),
               c == "init" || c == "launch" || c == BpHitCommand || c == "step" || c == "continue"
               || c == "step over" || c == "file")
    else Reaction(None, false)
  }

  // ---------------------------------------------------------------------------
  // Paths

  /** `File.ToUnixPath` and `Path.basename` of the host, and its separator. */
  datatype PathEnv = PathEnv(toUnixPath: string -> string, baseName: string -> string, platform: Platform)

  /** No slash is followed by another. */
  predicate NoDoubleSlash(s: string) {
    forall i :: 0 <= i < |s| - 1 ==> !(s[i] == '/' && s[i + 1] == '/')
  }

  /** No dot is followed by a slash. */
  predicate NoDotSlash(s: string) {
    forall i :: 0 <= i < |s| - 1 ==> !(s[i] == '.' && s[i + 1] == '/')
  }

  predicate StartsWithSlash(s: string) {
    s != [] && s[0] == '/'
  }

  predicate IsSlash(c: char) { c == '/' }

  /** The characters of `s` other than slashes, in order. */
  function WithoutSlashes(s: string): string {
    if s == [] then [] else (if s[0] == '/' then [] else [s[0]]) + WithoutSlashes(s[1..])
  }

  /** `replace(/\/{2,}/g, '/')`: every run of two or more slashes becomes
      one slash. Only slashes go, and no two slashes are left adjacent. */
  function CollapseSlashes(s: string): (r: string)
    ensures NoDoubleSlash(r)
    ensures StartsWithSlash(r) <==> StartsWithSlash(s)
    ensures WithoutSlashes(r) == WithoutSlashes(s)
    decreases |s|
  {
    if |s| >= 2 && s[0] == '/' && s[1] == '/' then
      var n := Span(s, IsSlash);
      var rest := CollapseSlashes(s[n..]);
      SlashRunDropped(s, n);
      assert ("/" + rest)[1..] == rest;
      "/" + rest
    else if s == [] then []
    else
      var rest := CollapseSlashes(s[1..]);
      assert ([s[0]] + rest)[1..] == rest;
      [s[0]] + rest
  }

  /** Dropping a leading run of slashes drops nothing else. */
  lemma {:induction false} SlashRunDropped(s: string, n: nat)
    requires n <= |s| && forall i :: 0 <= i < n ==> s[i] == '/'
    ensures WithoutSlashes(s[n..]) == WithoutSlashes(s)
    decreases n
  {
    if n > 0 {
      SlashRunDropped(s[1..], n - 1);
      assert s[1..][n - 1..] == s[n..];
    }
  }

  /** Text without adjacent slashes is left as it is. */
  lemma {:induction false} CollapseClean(s: string)
    requires NoDoubleSlash(s)
    ensures CollapseSlashes(s) == s
    decreases |s|
  {
    if s != [] {
      CollapseClean(s[1..]);
      assert [s[0]] + s[1..] == s;
    }
  }

  /** `replace(/\.\//g, '')` on text without adjacent slashes: no `./` and
      no adjacent slashes remain, and text that did not start with a slash
      still does not. */
  lemma {:induction false} DotSlashRemoved(s: string)
    requires NoDoubleSlash(s)
    ensures NoDoubleSlash(ReplaceAll(s, "./", "")) && NoDotSlash(ReplaceAll(s, "./", ""))
    ensures !StartsWithSlash(s) ==> !StartsWithSlash(ReplaceAll(s, "./", ""))
    decreases |s|
  {
    if |s| >= 2 {
      var r := ReplaceAll(s, "./", "");
      if s[..2] == "./" {
        DotSlashRemoved(s[2..]);
        assert r == ReplaceAll(s[2..], "./", "");
        assert s[1] == '/';
        assert !StartsWithSlash(s[2..]);
      } else {
        DotSlashRemoved(s[1..]);
        var rest := ReplaceAll(s[1..], "./", "");
        assert r == [s[0]] + rest;
        assert (s[0] == '/' || s[0] == '.') ==> !StartsWithSlash(s[1..]);
        assert forall i :: 1 <= i < |r| ==> r[i] == rest[i - 1];
      }
    }
  }

  /** `replace(/\/$/, '')`: one trailing slash goes. */
  function DropTrailingSlash(s: string): (r: string)
    ensures r == s || (s == r + "/")
  {
    if s != [] && s[|s| - 1] == '/' then s[..|s| - 1] else s
  }

  /** `DelRepeat` of `ToUnixPath(path)`: runs of slashes collapsed, every
      `./` deleted, one trailing slash dropped, and the slashes made the
      host separator. On a POSIX host the result has no adjacent slashes,
      no `./` and no trailing slash; on Windows it has no slash at all. */
  function DelRepeat(unixPath: string, platform: Platform): (r: string)
    ensures platform == Posix ==> NoDoubleSlash(r) && NoDotSlash(r) && (r == [] || r[|r| - 1] != '/')
    ensures platform == Windows ==> forall i :: 0 <= i < |r| ==> r[i] != '/'
  {
    var collapsed := CollapseSlashes(unixPath);
    DotSlashRemoved(collapsed);
    var p := DropTrailingSlash(ReplaceAll(collapsed, "./", ""));
    if platform == Posix then p
    else
      ReplaceAllChar(p, '/', '\\');
      ReplaceAll(p, "/", "\\")
  }

  /** On a POSIX host a cleaned path is clean: `DelRepeat` is idempotent. */
  lemma {:induction false} DelRepeatIdempotent(unixPath: string)
    ensures DelRepeat(DelRepeat(unixPath, Posix), Posix) == DelRepeat(unixPath, Posix)
  {
    var r := DelRepeat(unixPath, Posix);
    CollapseClean(r);
    DotSlashAbsent(r);
    ReplaceAllAbsent(r, "./", "");
  }

  lemma {:induction false} DotSlashAbsent(s: string)
    requires NoDotSlash(s)
    ensures forall i: nat :: !OccursAt(s, "./", i)
  {
    forall i: nat ensures !OccursAt(s, "./", i) {
      if i + 2 <= |s| {
        assert s[i..i + 2] == [s[i], s[i + 1]];
      }
    }
  }

  /** `CreateSource`: the base name and the cleaned path. */
  datatype Source = Source(name: string, path: string)

  function CreateSource(env: PathEnv, path: string): Source {
    Source(env.baseName(path), DelRepeat(env.toUnixPath(path), env.platform))
  }

  // ---------------------------------------------------------------------------
  // stack

  /** A frame as the IDE receives it. */
  datatype StackFrame = StackFrame(id: int, name: string, source: Option<Source>, line: Num, column: int)

  /** The frame `stack` pushes for a gdb frame that has an id and a line. */
  function FrameOf(env: PathEnv, frame: GDBFrame): Option<StackFrame> {
    if frame.id.Some? && frame.line.Some? then
      Some(StackFrame(frame.id.value, frame.func,
                      if Given(frame.file) then Some(CreateSource(env, frame.file.value)) else None,
                      ParseInt(Trim(frame.line.value), 0), 0))
    else None
  }

  function Framer(env: PathEnv): GDBFrame -> Option<StackFrame> {
    frame => FrameOf(env, frame)
  }

  /** The frames `stack` resolves to once `info stack` answered `frames`. */
  method Stack(env: PathEnv, frames: Option<seq<GDBFrame>>) returns (stackList: seq<StackFrame>)
    ensures stackList == if frames.Some? then FilterMap(frames.value, Framer(env)) else []
  {
    stackList := [];
    if frames.Some? {
      stackList := Collect(frames.value, Framer(env));
    }
  }

  /** Every frame `stack` keeps comes from a gdb frame with an id and a
      line, whose id, function and parsed line it carries, at column 0;
      nothing is kept exactly when no frame has both. */
  lemma {:induction false} StackFrames(env: PathEnv, frames: seq<GDBFrame>)
    ensures forall k :: 0 <= k < |FilterMap(frames, Framer(env))| ==>
      exists i :: (0 <= i < |frames| && frames[i].id == Some(FilterMap(frames, Framer(env))[k].id)
                   && frames[i].line.Some? && FilterMap(frames, Framer(env))[k].line == ParseInt(Trim(frames[i].line.value), 0)
                   && FilterMap(frames, Framer(env))[k].name == frames[i].func
                   && FilterMap(frames, Framer(env))[k].column == 0)
    ensures FilterMap(frames, Framer(env)) == [] <==> forall i :: 0 <= i < |frames| ==> frames[i].id.None? || frames[i].line.None?
  {
    var r := FilterMap(frames, Framer(env));
    forall k | 0 <= k < |r|
      ensures exists i :: (0 <= i < |frames| && frames[i].id == Some(r[k].id) && frames[i].line.Some?
                           && r[k].line == ParseInt(Trim(frames[i].line.value), 0) && r[k].name == frames[i].func
                           && r[k].column == 0)
    {
      FilterMapMember(frames, Framer(env), k);
    }
    FilterMapEmpty(frames, Framer(env));
  }

  // ---------------------------------------------------------------------------
  // GetDataType

  /** `GetDataType`: the trimmed text is an integer (decimal or hex), a
      float, an object, or an original value. The four tests exclude each
      other, so the order in which the code tries them does not matter, and
      neither `array` nor `char_array` is ever returned. */
  function GetDataType(val: string): (r: DataType)
    ensures r != ArrayType && r != CharArray
    ensures r == Integer <==> ExpressionValues.IsIntegerText(Trim(val)) || ExpressionValues.IsHexText(Trim(val))
    ensures r == Float <==> ExpressionValues.IsFloatText(Trim(val))
    ensures r == ObjectType <==> ExpressionValues.IsObjectText(Trim(val))
  {
    var t := Trim(val);
    ShapesExclusive(t);
    if ExpressionValues.IsIntegerText(t) || ExpressionValues.IsHexText(t) then Integer
    else if ExpressionValues.IsFloatText(t) then Float
    else if ExpressionValues.IsObjectText(t) then ObjectType
    else Original
  }

  /** A text has at most one of the integer, float and object shapes. */
  lemma {:induction false} ShapesExclusive(t: string)
    ensures ExpressionValues.IsFloatText(t) ==> !ExpressionValues.IsIntegerText(t) && !ExpressionValues.IsHexText(t)
    ensures ExpressionValues.IsObjectText(t) ==>
      !ExpressionValues.IsIntegerText(t) && !ExpressionValues.IsHexText(t) && !ExpressionValues.IsFloatText(t)
  {
    var u := if t != [] && t[0] == '-' then TrimLeft(t[1..]) else t;
    if ExpressionValues.IsFloatText(t) {
      var d := Span(u, IsDigit);
      assert !IsDigit(u[d]);
      if |t| >= 2 && t[0] == '0' {
        assert u == t;
        assert u[1] == '.' || IsDigit(u[1]);
      }
    }
    if ExpressionValues.IsObjectText(t) {
      assert t[0] == '{';
    }
  }

  /** Surrounding white space does not change the type. */
  lemma {:induction false} GetDataTypeTrims(val: string)
    ensures GetDataType(Trim(val)) == GetDataType(val)
  {
    var t := Trim(val);
    TrimChars(val);
    if t != [] {
      TrimOfTrimmed(t);
    }
  }

  // ---------------------------------------------------------------------------
  // The breakpoint maps

  /** The breakpoint bookkeeping of `Runtime`: the lines requested before
      the session starts, and the breakpoints gdb answered for, by path. */
  class Runtime {
    var preSetBpMap: map<string, seq<BaseBreakPoint>>
    var bpMap: map<string, seq<BaseBreakPoint>>

    constructor ()
      ensures preSetBpMap == map[] && bpMap == map[]
    {
      preSetBpMap := map[];
      bpMap := map[];
    }

    /** `PreSetBreakpoints`: one pending breakpoint per line, in request
        order; the list replaces the one recorded for the path. */
    method PreSetBreakpoints(path: string, lines: seq<int>) returns (bpList: seq<BaseBreakPoint>)
      modifies this`preSetBpMap
      ensures |bpList| == |lines|
      ensures forall i :: 0 <= i < |lines| ==> bpList[i] == PendingBreakpoint(path, lines[i])
      ensures preSetBpMap == old(preSetBpMap)[path := bpList]
    {
      bpList := seq(|lines|, i requires 0 <= i < |lines| => PendingBreakpoint(path, lines[i]));
      preSetBpMap := preSetBpMap[path := bpList];
    }

    /** `setBreakpoints`: one `setBreakpoint` per line, in order, given the
        answer `break` gave for each; the list replaces the one recorded
        for the path. */
    method SetBreakpoints(path: string, lines: seq<int>, answers: seq<Option<BaseBreakPoint>>)
      returns (bpList: seq<BaseBreakPoint>)
      requires |answers| == |lines|
      modifies this`bpMap
      ensures |bpList| == |lines|
      ensures forall i :: 0 <= i < |lines| ==> bpList[i] == SetBreakpoint(path, lines[i], answers[i])
      ensures bpMap == old(bpMap)[path := bpList]
    {
      bpList := [];
      var i := 0;
      while i < |lines|
        invariant 0 <= i <= |lines| && |bpList| == i
        invariant forall j :: 0 <= j < i ==> bpList[j] == SetBreakpoint(path, lines[j], answers[j])
      {
        var bp := SetBreakpoint(path, lines[i], answers[i]);
        bpList := bpList + [bp];
        i := i + 1;
      }
      bpMap := bpMap[path := bpList];
    }
  }
}
