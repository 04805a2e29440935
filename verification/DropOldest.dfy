/** Bounded queues with the drop-oldest policy (decnet/bus/fake.py, decnet/bus/unix_server.py). */
module DropOldest {
  import opened Common

  /** `asyncio.Queue(maxsize)`: bounded only when `maxsize` is positive. */
  predicate Full<T>(q: seq<T>, maxsize: int) {
    0 < maxsize <= |q|
  }

  /** The queue keeps the newest items that fit. */
  function Push<T>(q: seq<T>, x: T, maxsize: int): (r: seq<T>)
    ensures 0 < |r| <= |q| + 1 && r == (q + [x])[|q| + 1 - |r|..]
    ensures |r| <= |q| <==> Full(q, maxsize)
    ensures 0 < maxsize && |q| <= maxsize ==> |r| <= maxsize
  {
    var all := q + [x];
    var k := if Full(q, maxsize) then |all| - maxsize else 0;
    all[k..]
  }

  class Queue<T> {
    var items: seq<T>
    const maxsize: int

    constructor (maxsize: int)
      ensures items == [] && this.maxsize == maxsize
    {
      items := [];
      this.maxsize := maxsize;
    }

    /** `put_nowait`; false stands for QueueFull. */
    method PutNowait(x: T) returns (ok: bool)
      modifies this
      ensures ok <==> !Full(old(items), maxsize)
      ensures items == if ok then old(items) + [x] else old(items)
    {
      ok := !Full(items, maxsize);
      if ok { items := items + [x]; }
    }

    /** `get_nowait`; `None` stands for QueueEmpty. */
    method GetNowait() returns (x: Option<T>)
      modifies this
      ensures x.None? <==> old(items) == []
      ensures x.None? ==> items == []
      ensures x.Some? ==> old(items) == [x.value] + items
    {
      if items == [] { return None; }
      x := Some(items[0]);
      items := items[1..];
    }
  }

  /** The retry loop: put, and on a full queue drop one item and try again. */
  method EnqueueDropOldest<T>(queue: Queue<T>, x: T)
    modifies queue
    ensures queue.items == Push(old(queue.items), x, queue.maxsize)
  {
    ghost var k := 0;
    while true
      invariant 0 <= k <= |old(queue.items)| && queue.items == old(queue.items)[k..]
      invariant k > 0 ==> Full(old(queue.items), queue.maxsize) && |queue.items| >= queue.maxsize - 1
      decreases |queue.items|
    {
      var ok := queue.PutNowait(x);
      if ok {
        assert queue.items == (old(queue.items) + [x])[k..];
        return;
      }
      var dropped := queue.GetNowait();
      if dropped.None? { assert false; }
      k := k + 1;
    }
  }
}
