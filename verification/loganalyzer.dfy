/** The message classifier of the extension (src/LogAnalyzer.ts): each
    message is either logged, shown to the user, or both. The event emitter
    is modelled by the list of events `DispatchMessage` emits, in order. */
module LogAnalyzer {
  import opened JsText

  /** `Message` (src/Message.ts). `kind` is its `type`; at run time it can
      be any text, which is why `Analyze` has a default branch. */
  datatype Message = Message(
    kind: string,
    title: Option<string>,
    content: string,
    contentType: string,
    className: Option<string>)

  /** `DisplayableMessage`: the title is `undefined` when the field it is
      taken from is. */
  datatype Displayable = Displayable(title: Option<string>, text: string)

  datatype AnalyzeResult = AnalyzeResult(displayable: Option<Displayable>, isLog: bool, msg: Message)

  /** An emitted event: `'Log'` with the message, or the message's type
      with what to show. */
  datatype Event = LogEvent(msg: Message) | ShowEvent(kind: string, shown: Displayable)

  /** `AnalyzeError`: a string message gets a displayable titled by its
      class; it stays logged. */
  function AnalyzeError(result: AnalyzeResult): AnalyzeResult {
    if result.msg.contentType == "string" then
      result.(displayable := Some(Displayable(result.msg.className, result.msg.content)))
    else result
  }

  /** `AnalyzeWarning`: a string message is shown, titled by its class,
      instead of logged. */
  function AnalyzeWarning(result: AnalyzeResult): AnalyzeResult {
    if result.msg.contentType == "string" then
      result.(isLog := false, displayable := Some(Displayable(result.msg.className, result.msg.content)))
    else result
  }

  /** `AnalyzeInfo`: a string message is shown, titled by its title,
      instead of logged. */
  function AnalyzeInfo(result: AnalyzeResult): AnalyzeResult {
    if result.msg.contentType == "string" then
      result.(isLog := false, displayable := Some(Displayable(result.msg.title, result.msg.content)))
    else result
  }

  predicate IsShownKind(kind: string) {
    kind == "Error" || kind == "Warning" || kind == "Info"
  }

  /** `Analyze`: starts from "log it, show nothing" and lets the analyser of
      the message's type adjust the record. */
  function Analyze(msg: Message): (r: AnalyzeResult)
    ensures r.msg == msg
    ensures !r.isLog <==> (msg.kind == "Warning" || msg.kind == "Info") && msg.contentType == "string"
    ensures r.displayable.Some? <==> IsShownKind(msg.kind) && msg.contentType == "string"
    ensures r.displayable.Some? ==> r.displayable.value.text == msg.content
    ensures r.displayable.Some? ==>
      r.displayable.value.title == if msg.kind == "Info" then msg.title else msg.className
  {
    var res := AnalyzeResult(None, true, msg);
    if msg.kind == "Error" then AnalyzeError(res)
    else if msg.kind == "Warning" then AnalyzeWarning(res)
    else if msg.kind == "Info" then AnalyzeInfo(res)
    else res
  }

  /** `DispatchMessage`: `'Log'` first when the message is to be logged,
      then one event named after the type when there is something to show. */
  method DispatchMessage(msg: Message) returns (events: seq<Event>)
    ensures LogEvent(msg) in events <==> Analyze(msg).isLog
    ensures (exists e :: e in events && e.ShowEvent?) <==> Analyze(msg).displayable.Some?
    ensures forall e :: e in events && e.ShowEvent? ==> e == ShowEvent(msg.kind, Analyze(msg).displayable.value)
    ensures |events| == (if Analyze(msg).isLog then 1 else 0) + (if Analyze(msg).displayable.Some? then 1 else 0)
    ensures Analyze(msg).isLog ==> events[0] == LogEvent(msg)
  {
    var res := Analyze(msg);
    events := [];
    if res.isLog {
      events := events + [LogEvent(res.msg)];
    }
    if res.msg.kind == "Warning" {
      if res.displayable.Some? {
        events := events + [ShowEvent("Warning", res.displayable.value)];
      }
    } else if res.msg.kind == "Error" {
      if res.displayable.Some? {
        events := events + [ShowEvent("Error", res.displayable.value)];
      }
    } else if res.msg.kind == "Info" {
      if res.displayable.Some? {
        events := events + [ShowEvent("Info", res.displayable.value)];
      }
    }
    if res.displayable.Some? {
      assert events[|events| - 1].ShowEvent?;
    }
  }

  /** Every message is logged, shown, or both, except a message of an
      unknown type, which is only logged; errors are always logged. */
  lemma {:induction false} LoggedOrShown(msg: Message)
    ensures Analyze(msg).isLog || Analyze(msg).displayable.Some?
    ensures msg.kind == "Error" ==> Analyze(msg).isLog
    ensures !IsShownKind(msg.kind) ==> Analyze(msg) == AnalyzeResult(None, true, msg)
  {
  }
}
