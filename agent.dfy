/**
 * The client object: the bounded inbound queue that Publish and Event write,
 * and the state of the background worker that reads it. The worker's `select`
 * becomes a choice of method: whoever drives the model calls OnEvent, OnTimer,
 * OnFlush or OnShutdown, each one iteration of the loop in `start`. Each of
 * them is proved against the matching step of module Worker, whose lemmas
 * then carry over: nothing taken from the queue is lost, duplicated or
 * reordered, batches are non-empty and at most BufferSize long, and the
 * cursor stays below BufferSize.
 */
module Agent {
  import opened Options
  import opened Events
  import opened Transport
  import opened Worker

  /** The capacity of the inbound channel `ch`. */
  const DefaultQueueSize: nat := 250

  class Client {
    /** The buffered channel `ch`, oldest event first. */
    var queue: seq<Event>
    /** The worker's `buffer`, of `bufferSize` slots. */
    const buffer: array<Event>
    /** The worker's cursor `index`: buffer[0:index] is what it holds. */
    var index: nat
    /** False once the worker has left its loop. */
    var running: bool
    /** True once `cancel` has run: `ctx.Done()` is ready, but the worker may still loop. */
    var cancelled: bool
    /** Everything the worker has done: dispatches (with their callback outcome) and flush replies. */
    ghost var trace: seq<Action>
    /** Every event the queue has accepted, in the order Publish enqueued it. */
    ghost var accepted: seq<Event>

    /** The cursor bound, the queue bound, and conservation from the queue to the batches. */
    ghost predicate Valid()
      reads this, buffer
    {
      buffer.Length == BufferSize && index < BufferSize && |queue| <= DefaultQueueSize &&
      Consistent(WorkerState(), queue, accepted)
    }

    /** The worker's state as the pure model sees it. */
    ghost function WorkerState(): Worker.State
      reads this, buffer
      requires index <= buffer.Length
    {
      Worker.State(buffer[..index], trace)
    }

    /**
     * New, with a result callback installed through the OnPublishFunc option:
     * an empty queue, and a worker that is running with index 0.
     */
    constructor ()
      ensures Valid() && fresh(buffer) && running && !cancelled
      ensures queue == [] && index == 0 && trace == [] && accepted == []
    {
      queue := [];
      buffer := new Event[BufferSize];
      index := 0;
      running := true;
      cancelled := false;
      trace := [];
      accepted := [];
    }

    /**
     * Publish: normalise the timestamp, then enqueue without blocking. On a
     * full queue the event is refused and nothing changes.
     */
    method Publish(e: Event) returns (err: Option<Error>)
      requires Valid()
      modifies this`queue, this`accepted
      ensures Valid()
      ensures |old(queue)| < DefaultQueueSize ==>
        err == None && queue == old(queue) + [Normalize(e)] && accepted == old(accepted) + [Normalize(e)]
      ensures |old(queue)| >= DefaultQueueSize ==>
        err == Some(QueueFull) && queue == old(queue) && accepted == old(accepted)
    {
      var n := Normalize(e);
      if |queue| < DefaultQueueSize {
        queue := queue + [n];
        accepted := accepted + [n];
        err := None;
      } else {
        err := Some(QueueFull);
      }
    }

    /**
     * Client.Event: refuse an event without UserID, then one without
     * EventType, leaving the queue alone; otherwise exactly what Publish does.
     */
    method Track(e: Event) returns (err: Option<Error>)
      requires Valid()
      modifies this`queue, this`accepted
      ensures Valid()
      ensures Validate(e).Some? ==>
        err == Validate(e) && queue == old(queue) && accepted == old(accepted)
      ensures Validate(e).None? && |old(queue)| < DefaultQueueSize ==>
        err == None && queue == old(queue) + [Normalize(e)] && accepted == old(accepted) + [Normalize(e)]
      ensures Validate(e).None? && |old(queue)| >= DefaultQueueSize ==>
        err == Some(QueueFull) && queue == old(queue) && accepted == old(accepted)
    {
      err := Validate(e);
      if err.None? {
        err := Publish(e);
      }
    }

    /** publish(batch): one network call for `batch`, then the result callback. */
    method Send(batch: seq<Event>, d: Delivery)
      modifies this`trace
      ensures trace == old(trace) + [Dispatched(batch, Classify(d))]
    {
      trace := trace + [Dispatched(batch, Classify(d))];
    }

    /** `case v := <-c.ch`, selectable only when the channel holds an event. */
    method OnEvent(d: Delivery)
      requires Valid() && running && queue != []
      modifies this`queue, this`index, this`trace, buffer
      ensures Valid()
      ensures queue == old(queue)[1..]
      ensures WorkerState() == Receive(old(WorkerState()), old(queue)[0], d)
    {
      ghost var s, acc := WorkerState(), accepted;
      var v := queue[0];
      ghost var r := Receive(s, v, d);
      assert queue == [v] + queue[1..];
      queue := queue[1..];
      buffer[index] := v;
      index := index + 1;
      assert buffer[..index] == s.pending + [v];
      if index == BufferSize {
        Send(buffer[..index], d);
        index := 0;
      }
      assert WorkerState() == r && accepted == acc;
      ReceiveKeepsConsistent(s, v, d, queue, acc);
    }

    /** `case <-timer.C`. */
    method OnTimer(d: Delivery)
      requires Valid() && running
      modifies this`index, this`trace
      ensures Valid()
      ensures WorkerState() == Tick(old(WorkerState()), d)
    {
      ghost var s, q, acc := WorkerState(), queue, accepted;
      ghost var t := Tick(s, d);
      if index > 0 {
        Send(buffer[..index], d);
        index := 0;
      }
      assert WorkerState() == t && queue == q && accepted == acc;
      TickKeepsConsistent(s, d, q, acc);
    }

    /** `case v := <-c.flush`: dispatch what is buffered, then reply on v. */
    method OnFlush(d: Delivery)
      requires Valid() && running
      modifies this`index, this`trace
      ensures Valid()
      ensures WorkerState() == FlushRequest(old(WorkerState()), d)
    {
      ghost var s, q, acc := WorkerState(), queue, accepted;
      ghost var t := if index > 0 then Dispatch(s, d) else s;
      if index > 0 {
        Send(buffer[..index], d);
        index := 0;
      }
      assert WorkerState() == t;
      trace := trace + [Acknowledged];
      assert WorkerState() == State(t.pending, t.trace + [Acknowledged]) == FlushRequest(s, d);
      assert queue == q && accepted == acc;
      FlushKeepsConsistent(s, d, q, acc);
    }

    /**
     * `case <-c.ctx.Done()`, selectable only once the client is cancelled:
     * leave the loop; what is buffered is never dispatched.
     */
    method OnShutdown()
      requires running && cancelled
      modifies this`running
      ensures !running
    {
      running := false;
    }

    /**
     * Flush: hand the worker a flush request and wait for its reply. When it
     * returns, the buffer is empty, the reply is the last thing the worker did,
     * and every accepted event has been dispatched or is still in the queue.
     */
    method Flush(d: Delivery)
      requires Valid() && running
      modifies this`index, this`trace
      ensures Valid() && index == 0
      ensures WorkerState() == FlushRequest(old(WorkerState()), d)
      ensures |trace| > 0 && trace[|trace| - 1] == Acknowledged
      ensures accepted == Flatten(Batches(trace)) + queue
    {
      OnFlush(d);
      FlushStep(old(WorkerState()), d);
    }

    /**
     * Close: Flush, then cancel. Cancelling only makes the shutdown case
     * selectable; until the worker selects it (OnShutdown), OnEvent, OnTimer
     * and OnFlush can still run.
     */
    method Close(d: Delivery)
      requires Valid() && running
      modifies this`index, this`trace, this`cancelled
      ensures Valid() && running && cancelled && index == 0
      ensures WorkerState() == FlushRequest(old(WorkerState()), d)
      ensures accepted == Flatten(Batches(trace)) + queue
    {
      Flush(d);
      cancelled := true;
    }
  }
}
