/** The extension's log store (src/LogManager.ts): messages are kept in four
    buckets by type and counted; every fifth message since the last dump
    starts an upload, or a dump once three uploads have failed.

    The log file is recorded in the ghost `dumps` (each `Dump` writes the
    buckets there). The upload request itself is not modelled: `Upload`
    says whether a request was started, and `UploadSettled` is what its
    promise runs when it settles. The `'trigger_upload'` and
    `'trigger_dump'` listeners run synchronously inside `emit`, so
    `NotifyEvents` calls `Upload` and `Dump` directly. */
module LogManager {
  import opened JsText
  import opened LogAnalyzer

  const UploadLimit: nat := 5
  const ErrorLimit: nat := 3

  /** `LogData`: each bucket is absent until its first message. */
  datatype LogData = LogData(
    warning: Option<seq<Message>>,
    error: Option<seq<Message>>,
    info: Option<seq<Message>>,
    other: Option<seq<Message>>)

  const Empty: LogData := LogData(None, None, None, None)

  datatype Bucket = WarningBucket | ErrorBucket | InfoBucket | OtherBucket

  function BucketOf(msg: Message): Bucket {
    if msg.kind == "Warning" then WarningBucket
    else if msg.kind == "Error" then ErrorBucket
    else if msg.kind == "Info" then InfoBucket
    else OtherBucket
  }

  function Get(d: LogData, b: Bucket): Option<seq<Message>> {
    match b
    case WarningBucket => d.warning
    case ErrorBucket => d.error
    case InfoBucket => d.info
    case OtherBucket => d.other
  }

  /** The messages of a bucket, none when it is absent. */
  function Contents(d: LogData, b: Bucket): seq<Message> {
    match Get(d, b)
    case None => []
    case Some(l) => l
  }

  /** `push` onto a present bucket, `[log]` for an absent one. */
  function Pushed(bucket: Option<seq<Message>>, msg: Message): Option<seq<Message>> {
    match bucket
    case None => Some([msg])
    case Some(l) => Some(l + [msg])
  }

  /** The `switch` of `Log`. */
  function Appended(d: LogData, msg: Message): LogData {
    match BucketOf(msg)
    case WarningBucket => d.(warning := Pushed(d.warning, msg))
    case ErrorBucket => d.(error := Pushed(d.error, msg))
    case InfoBucket => d.(info := Pushed(d.info, msg))
    case OtherBucket => d.(other := Pushed(d.other, msg))
  }

  /** `!(error || info || other || warning)`. */
  predicate IsEmptyData(d: LogData) {
    d.warning.None? && d.error.None? && d.info.None? && d.other.None?
  }

  /** Logging adds the message at the end of the bucket of its type and
      leaves every other bucket as it was; afterwards the data is not empty. */
  lemma {:induction false} AppendedOneBucket(d: LogData, msg: Message, b: Bucket)
    ensures Contents(Appended(d, msg), b) == Contents(d, b) + (if b == BucketOf(msg) then [msg] else [])
    ensures b != BucketOf(msg) ==> Get(Appended(d, msg), b) == Get(d, b)
    ensures !IsEmptyData(Appended(d, msg))
  {
    assert Get(Appended(d, msg), BucketOf(msg)).Some?;
  }

  class LogManager {
    var logData: LogData
    var currentCount: nat
    var errCount: nat
    /** What each `Dump` wrote to the log file, oldest first. */
    ghost var dumps: seq<LogData>

    constructor ()
      ensures logData == Empty && currentCount == 0 && errCount == 0 && dumps == []
    {
      logData := Empty;
      currentCount, errCount := 0, 0;
      dumps := [];
    }

    function IsEmpty(): (b: bool)
      reads this
      ensures b <==> forall k: Bucket :: Get(logData, k).None?
    {
      assert forall k: Bucket :: Get(logData, k) in {logData.warning, logData.error, logData.info, logData.other};
      assert (Get(logData, WarningBucket).None? && Get(logData, ErrorBucket).None? && Get(logData, InfoBucket).None?
              && Get(logData, OtherBucket).None?) ==> IsEmptyData(logData);
      IsEmptyData(logData)
    }

    method ClearAll()
      modifies this
      ensures logData == Empty && currentCount == 0 && errCount == old(errCount)
      ensures dumps == old(dumps) + [Empty]
    {
      logData := Empty;
      Dump();
    }

    method Dump()
      modifies this
      ensures dumps == old(dumps) + [logData] && currentCount == 0
      ensures logData == old(logData) && errCount == old(errCount)
    {
      dumps := dumps + [logData];
      ResetCount();
    }

    method ErrorDump()
      modifies this
      ensures dumps == old(dumps) + [logData] && currentCount == 0
      ensures logData == old(logData) && errCount == old(errCount) + 1
    {
      Dump();
      errCount := errCount + 1;
    }

    method ResetCount()
      modifies this`currentCount
      ensures currentCount == 0
    {
      currentCount := 0;
    }

    /** `Log`: the message goes to its bucket, the count goes up, and a full
        count starts an upload while fewer than three uploads have failed,
        or dumps the buckets once three have. */
    method Log(msg: Message) returns (uploading: bool)
      modifies this
      ensures logData == Appended(old(logData), msg) && errCount == old(errCount)
      ensures uploading <==> old(currentCount) + 1 >= UploadLimit && errCount < ErrorLimit
      ensures old(currentCount) + 1 >= UploadLimit && errCount >= ErrorLimit ==>
        currentCount == 0 && dumps == old(dumps) + [logData]
      ensures !(old(currentCount) + 1 >= UploadLimit && errCount >= ErrorLimit) ==>
        currentCount == old(currentCount) + 1 && dumps == old(dumps)
    {
      logData := Appended(logData, msg);
      AppendedOneBucket(old(logData), msg, BucketOf(msg));
      uploading := UpdateLogNumber();
    }

    method UpdateLogNumber() returns (uploading: bool)
      requires !IsEmpty()
      modifies this
      ensures logData == old(logData) && errCount == old(errCount)
      ensures uploading <==> old(currentCount) + 1 >= UploadLimit && errCount < ErrorLimit
      ensures old(currentCount) + 1 >= UploadLimit && errCount >= ErrorLimit ==>
        currentCount == 0 && dumps == old(dumps) + [logData]
      ensures !(old(currentCount) + 1 >= UploadLimit && errCount >= ErrorLimit) ==>
        currentCount == old(currentCount) + 1 && dumps == old(dumps)
    {
      currentCount := currentCount + 1;
      uploading := NotifyEvents(currentCount);
    }

    method NotifyEvents(logNum: nat) returns (uploading: bool)
      requires !IsEmpty()
      modifies this
      ensures logData == old(logData) && errCount == old(errCount)
      ensures uploading <==> logNum >= UploadLimit && errCount < ErrorLimit
      ensures logNum >= UploadLimit && errCount >= ErrorLimit ==> currentCount == 0 && dumps == old(dumps) + [logData]
      ensures !(logNum >= UploadLimit && errCount >= ErrorLimit) ==>
        currentCount == old(currentCount) && dumps == old(dumps)
    {
      uploading := false;
      if logNum >= UploadLimit {
        if errCount < ErrorLimit {
          uploading := Upload();
        } else {
          Dump();
        }
      }
    }

    /** `Upload`: a request is started only when some bucket is present;
        nothing changes until it settles. */
    method Upload() returns (started: bool)
      ensures started <==> !IsEmpty()
    {
      started := !IsEmpty();
    }

    /** What the upload's promise runs when it settles: success clears and
        dumps the buckets, failure dumps them and counts the failure. */
    method UploadSettled(success: bool)
      modifies this
      ensures success ==> logData == Empty && errCount == old(errCount) && dumps == old(dumps) + [Empty]
      ensures !success ==> logData == old(logData) && errCount == old(errCount) + 1 && dumps == old(dumps) + [logData]
      ensures currentCount == 0
    {
      if success {
        ClearAll();
      } else {
        ErrorDump();
      }
    }

    /** `Load`: when the log file exists its parsed content replaces the
        buckets (an unparsable file gives empty buckets) and the count
        restarts; otherwise nothing changes. */
    method Load(exists_: bool, parsed: Option<LogData>)
      modifies this
      ensures exists_ ==> logData == (if parsed.Some? then parsed.value else Empty) && currentCount == 0
      ensures !exists_ ==> logData == old(logData) && currentCount == old(currentCount)
      ensures errCount == old(errCount) && dumps == old(dumps)
    {
      if exists_ {
        logData := if parsed.Some? then parsed.value else Empty;
        ResetCount();
      }
    }
  }
}
