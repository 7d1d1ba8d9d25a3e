/** The records exchanged between the debug adapter and the GDB wrapper
    (src/GDBProtocol.ts). Optional JavaScript properties become `Option`s; a
    command is kept as its text, since the IDE side sends arbitrary names. */
module GdbProtocol {
  import opened JsText

  /** The pseudo-command queued after a run-control command; it is never
      written to gdb and only waits for the next stop. */
  const BpHitCommand: string := "###"

  datatype DataType = ArrayType | ObjectType | CharArray | Integer | Float | Original

  datatype Expression = Expression(name: string, dataType: DataType, val: string)

  datatype VariablesDefine = VariablesDefine(name: string, isArray: bool)

  datatype BaseBreakPoint = BaseBreakPoint(
    source: string,
    verified: bool,
    id: Option<int>,
    lineNum: Option<int>,
    isCondition: bool,
    condition: Option<string>)

  datatype ExecuteResult = ExecuteResult(isDone: bool, msg: Option<string>)

  datatype FunctionArgs = FunctionArgs(name: string, value: string)

  /** A stack frame as reported by `info stack`. */
  datatype GDBFrame = GDBFrame(
    addr: string,
    func: string,
    args: seq<FunctionArgs>,
    file: Option<string>,
    id: Option<int>,
    line: Option<string>)

  /** An asynchronous `*` record: its class (`stopped`, `running`, ...) and the
      text of its results, which the wrapper hands to a JSON decoder. */
  datatype RunningStatus = RunningStatus(kind: string, info: string)

  /** The `result` property of a response, whose JavaScript type depends on
      the command. */
  datatype Payload =
    | Values(exprs: seq<Expression>)
    | Variables(defs: seq<VariablesDefine>)
    | Frames(frames: seq<GDBFrame>)
    | Breakpoint(bp: BaseBreakPoint)

  datatype GDBServerResponse = GDBServerResponse(
    command: string,
    result: Option<Payload>,
    status: ExecuteResult,
    runningStatus: Option<RunningStatus>)
}
