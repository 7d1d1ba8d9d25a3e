/** The FIFO list behind the command pipeline
    (bin/GDBWrapper/out/Queue.js): a JavaScript array that `Enqueue` pushes
    onto and `Dequeue` splices the head from; `null` becomes `None`. */
module Queues {
  import opened JsText

  class Queue<T> {
    /** The array `list`, head first. */
    var list: seq<T>

    constructor ()
      ensures list == []
    {
      list := [];
    }

    /** Removes and returns the head; an empty queue gives `None` and stays
        as it is. */
    method Dequeue() returns (r: Option<T>)
      modifies this
      ensures old(list) == [] ==> r == None && list == []
      ensures old(list) != [] ==> r == Some(old(list)[0]) && list == old(list)[1..]
    {
      if IsEmpty() {
        return None;
      }
      r := Some(list[0]);
      list := list[1..];
    }

    /** Appends at the tail and returns the new length. */
    method Enqueue(v: T) returns (n: nat)
      modifies this
      ensures list == old(list) + [v]
      ensures n == |list| && n == |old(list)| + 1
    {
      list := list + [v];
      n := |list|;
    }

    /** The head without removing it; `None` on an empty queue. */
    function First(): (r: Option<T>)
      reads this
      ensures r.None? <==> list == []
      ensures r.Some? ==> |list| > 0 && r.value == list[0]
    {
      if IsEmpty() then None else Some(list[0])
    }

    function IsEmpty(): (b: bool)
      reads this
      ensures b <==> Size() == 0
    {
      |list| == 0
    }

    function Size(): nat
      reads this
    {
      |list|
    }
  }

  /** On an empty queue, `Enqueue(v)` then `Dequeue()` gives `v` back and
      leaves the queue empty. */
  method EnqueueThenDequeue<T>(q: Queue<T>, v: T) returns (r: Option<T>)
    requires q.list == []
    modifies q
    ensures r == Some(v) && q.list == []
  {
    var n := q.Enqueue(v);
    r := q.Dequeue();
  }
}
