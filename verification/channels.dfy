/** The two channels between the main thread and the loader worker, modelled
    sequentially: the single-slot request channel and the result FIFO. */
module Channels {
  import opened ViewerTypes

  /** The pending-request slot (`loader_nextImageToLoad`); -1 means "nothing pending". */
  class RequestSlot {
    var next: int

    /** As `loader_start` leaves it. */
    constructor ()
      ensures next == -1
    {
      next := -1;
    }

    /** `loader_request_load`: overwrite whatever is pending. */
    method Request(index: int)
      modifies this
      ensures next == index
    {
      next := index;
    }

    /** The worker's `atomic_exchange(&slot, -1)`: read the slot and clear it. */
    method Take() returns (index: int)
      modifies this
      ensures index == old(next) && next == -1
    {
      index := next;
      next := -1;
    }
  }

  /** Two requests before the worker wakes: the worker observes only the second,
      and the slot is then empty, so the first is never seen at all. */
  method Supersession(a: int, b: int) returns (seen: int, seenAfter: int)
    ensures seen == b
    ensures seenAfter == -1
  {
    var slot := new RequestSlot();
    slot.Request(a);
    slot.Request(b);
    seen := slot.Take();
    seenAfter := slot.Take();
  }

  /** The result FIFO (`LoadResultQueue`); the linked nodes become a sequence, head first. */
  class ResultQueue {
    var contents: seq<LoadResult>

    constructor ()
      ensures contents == []
    {
      contents := [];
    }

    /** `LoadResultQueue_enqueue`: append at the tail. When the node allocation
        fails (`allocOk` false) the result is silently dropped. */
    method Enqueue(r: LoadResult, allocOk: bool)
      modifies this
      ensures contents == if allocOk then old(contents) + [r] else old(contents)
    {
      if !allocOk {
        return;
      }
      contents := contents + [r];
    }

    /** `LoadResultQueue_dequeue`: remove the head, or report an empty queue and change nothing. */
    method Dequeue() returns (r: Option<LoadResult>)
      modifies this
      ensures r.None? <==> old(contents) == []
      ensures r.None? ==> contents == old(contents)
      ensures r.Some? ==> r.value == old(contents)[0] && contents == old(contents)[1..]
    {
      if contents == [] {
        return None;
      }
      r := Some(contents[0]);
      contents := contents[1..];
    }
  }

  /** FIFO order: two results come out in the order they went in, then the queue reports empty. */
  method FifoOrder(x: LoadResult, y: LoadResult) returns (first: Option<LoadResult>, second: Option<LoadResult>, third: Option<LoadResult>)
    ensures first == Some(x) && second == Some(y) && third == None
  {
    var q := new ResultQueue();
    q.Enqueue(x, true);
    q.Enqueue(y, true);
    first := q.Dequeue();
    second := q.Dequeue();
    third := q.Dequeue();
  }

  /** FIFO order for any number of results: whatever is enqueued is dequeued, in the same order. */
  method EnqueueThenDrain(xs: seq<LoadResult>) returns (out: seq<LoadResult>)
    ensures out == xs
  {
    var q := new ResultQueue();
    for i := 0 to |xs|
      invariant q.contents == xs[..i]
    {
      q.Enqueue(xs[i], true);
    }
    out := [];
    while true
      invariant out + q.contents == xs
      decreases |q.contents|
    {
      var r := q.Dequeue();
      if r.None? {
        break;
      }
      out := out + [r.value];
    }
  }
}
