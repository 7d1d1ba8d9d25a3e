/** `ExecutableQueue` (bin/GDBWrapper/out/CommandQueue.js): the commands
    waiting for gdb, in the order they were added, and the `runFirst` flag
    that says whether nothing is running.

    The source hands the entry to run to its `OnRunNewOne` callback; here
    the methods return that entry instead, and the session that owns the
    queue runs it. The ghost fields record the history: every entry ever
    added, those removed after their completion, and those handed out. */
module CommandQueue {
  import opened JsText
  import opened Queues

  /** A queued command: the gdb command, its parameter text ending in a
      newline, and the caller's key. */
  datatype Entry = Entry(command: string, params: string, key: Option<string>)

  /** `(params ? ' ' + params : '') + '\n'`: a missing or empty parameter
      gives only the newline. */
  function ParamText(params: Option<string>): (r: string)
    ensures |r| >= 1 && r[|r| - 1] == '\n'
    ensures params.None? || params.value == [] <==> r == "\n"
    ensures params.Some? && params.value != [] ==> r[0] == ' ' && r[1..|r| - 1] == params.value
  {
    if params.Some? && params.value != [] then " " + params.value + "\n" else "\n"
  }

  class ExecutableQueue {
    const queue: Queue<Entry>
    var runFirst: bool
    ghost var added: seq<Entry>
    ghost var completed: seq<Entry>
    ghost var issued: seq<Entry>

    /** Idle exactly when empty; the queue holds the added entries not yet
        completed, and the entries handed out are the completed ones plus
        the head. */
    ghost predicate Valid()
      reads this, queue
    {
      && (runFirst <==> queue.list == [])
      && added == completed + queue.list
      && issued == completed + (if queue.list == [] then [] else [queue.list[0]])
    }

    constructor ()
      ensures Valid() && fresh(queue)
      ensures queue.list == [] && runFirst
      ensures added == [] && completed == [] && issued == []
    {
      queue := new Queue<Entry>();
      runFirst := true;
      added, completed, issued := [], [], [];
    }

    /** Hands out the head without removing it; on an empty queue the
        queue becomes idle again. */
    method RunNext() returns (ran: Option<Entry>)
      modifies this
      ensures queue.list == [] ==> ran == None && runFirst && issued == old(issued)
      ensures queue.list != [] ==> ran == Some(queue.list[0]) && runFirst == old(runFirst)
      ensures queue.list != [] ==> issued == old(issued) + [queue.list[0]]
      ensures added == old(added) && completed == old(completed)
    {
      if !queue.IsEmpty() {
        var v := queue.First();
        ran := v;
        issued := issued + [v.value];
      } else {
        runFirst := true;
        ran := None;
      }
    }

    /** Appends the entry; when nothing was running it is handed out at
        once, otherwise it only waits. */
    method Execute(command: string, params: Option<string>, key: Option<string>) returns (ran: Option<Entry>)
      requires Valid()
      modifies this, queue
      ensures Valid()
      ensures queue.list == old(queue.list) + [Entry(command, ParamText(params), key)]
      ensures ran == if old(runFirst) then Some(Entry(command, ParamText(params), key)) else None
      ensures added == old(added) + [Entry(command, ParamText(params), key)]
      ensures completed == old(completed)
    {
      var e := Entry(command, ParamText(params), key);
      var n := queue.Enqueue(e);
      added := added + [e];
      if runFirst {
        runFirst := false;
        ran := RunNext();
      } else {
        ran := None;
      }
    }

    /** The command at the head; an empty queue throws. */
    function CurrentCommand(): (r: Outcome<string>)
      reads this, queue
      ensures r.Thrown? <==> queue.list == []
      ensures r.Thrown? ==> r.message == "Has no command"
      ensures r.Ok? ==> r.value == queue.list[0].command
    {
      match queue.First()
      case Some(v) => Ok(v.command)
      case None => Thrown("Has no command")
    }

    /** The running command has completed: drop the head and hand out the
        next one. */
    method NotifyRunNext() returns (ran: Option<Entry>)
      requires Valid()
      modifies this, queue
      ensures Valid()
      ensures queue.list == if old(queue.list) == [] then [] else old(queue.list)[1..]
      ensures ran == queue.First()
      ensures completed == old(completed) + (if old(queue.list) == [] then [] else [old(queue.list)[0]])
      ensures added == old(added)
    {
      var head := queue.Dequeue();
      if head.Some? {
        completed := completed + [head.value];
      }
      ran := RunNext();
    }
  }
}
