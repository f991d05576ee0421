/**
 * The background worker of the client (`Client.start`) as a pure state
 * machine. Between two iterations of its loop the worker holds the events
 * `buffer[0:index]` that it has taken from the queue but not yet dispatched,
 * and it has emitted a trace of dispatches (each one a call of the result
 * callback) and flush acknowledgements. Each input the loop selects is one step
 * function here; shutdown leaves the loop and is the end of a run.
 */
module Worker {
  import opened Events
  import opened Transport

  /** `bufferSize` in start(): the number of events one batch can hold. */
  const BufferSize: nat := 256

  /** An observable effect of the worker, in the order it happens. */
  datatype Action =
    | Dispatched(batch: seq<Event>, outcome: Outcome)  // publish(batch), then the callback with outcome
    | Acknowledged                                      // the reply on a flush request's channel

  /** `pending` is buffer[0:index]; `trace` is everything the worker has done so far. */
  datatype State = State(pending: seq<Event>, trace: seq<Action>)

  /** The state when the worker starts: index 0, nothing done. */
  const Initial: State := State([], [])

  /** The batches dispatched in `trace`, in dispatch order. */
  function Batches(trace: seq<Action>): seq<seq<Event>>
  {
    if trace == [] then []
    else
      var last := trace[|trace| - 1];
      Batches(trace[..|trace| - 1]) + (if last.Dispatched? then [last.batch] else [])
  }

  /** The number of flush acknowledgements in `trace`. */
  function Acks(trace: seq<Action>): nat
  {
    if trace == [] then 0
    else Acks(trace[..|trace| - 1]) + (if trace[|trace| - 1].Acknowledged? then 1 else 0)
  }

  /** The events of `batches`, one batch after the other. */
  function Flatten(batches: seq<seq<Event>>): seq<Event>
  {
    if batches == [] then [] else Flatten(batches[..|batches| - 1]) + batches[|batches| - 1]
  }

  /** Every event the worker has taken from the queue: dispatched ones first, then buffered ones. */
  ghost function Delivered(s: State): seq<Event>
  {
    Flatten(Batches(s.trace)) + s.pending
  }

  /**
   * What holds between loop iterations: the cursor is below the buffer size,
   * and every dispatched batch is non-empty and fits the buffer.
   */
  ghost predicate Inv(s: State)
  {
    |s.pending| < BufferSize &&
    forall i :: 0 <= i < |Batches(s.trace)| ==> 0 < |Batches(s.trace)[i]| <= BufferSize
  }

  /**
   * The client's view: `accepted` (every event the queue ever took) is what
   * the worker has taken, followed by what is still queued.
   */
  ghost predicate Consistent(s: State, queue: seq<Event>, accepted: seq<Event>)
  {
    Inv(s) && accepted == Delivered(s) + queue
  }

  /**
   * publish(buffer[0:index]) followed by `index = 0`: the buffered events go
   * out as exactly one more batch, no acknowledgement is sent, and the buffer
   * is empty afterwards.
   */
  function Dispatch(s: State, d: Delivery): (r: State)
    ensures r.pending == [] && |r.trace| == |s.trace| + 1
    ensures Batches(r.trace) == Batches(s.trace) + [s.pending]
    ensures Acks(r.trace) == Acks(s.trace)
  {
    var a := Dispatched(s.pending, Classify(d));
    BatchesSnoc(s.trace, a);
    State([], s.trace + [a])
  }

  /**
   * `case v := <-c.ch`: store v at the cursor, advance it, dispatch a full
   * buffer. The cursor advances by one and wraps to 0 at BufferSize, so it stays below
   * BufferSize, and the trace grows by the one dispatch of a full buffer.
   */
  function Receive(s: State, e: Event, d: Delivery): (r: State)
    requires |s.pending| < BufferSize
    ensures |r.pending| == if |s.pending| + 1 < BufferSize then |s.pending| + 1 else 0
    ensures |r.trace| == |s.trace| + (if r.pending == [] then 1 else 0)
  {
    var p := s.pending + [e];
    if |p| == BufferSize then Dispatch(State(p, s.trace), d) else State(p, s.trace)
  }

  /**
   * `case <-timer.C`: dispatch the buffer if it holds anything. The buffer is
   * empty afterwards; on an empty buffer nothing at all happens.
   */
  function Tick(s: State, d: Delivery): (r: State)
    ensures r.pending == [] && |r.trace| == |s.trace| + (if s.pending == [] then 0 else 1)
    ensures s.pending == [] ==> r == s
  {
    if |s.pending| > 0 then Dispatch(s, d) else s
  }

  /**
   * `case v := <-c.flush`: dispatch the buffer if it holds anything, then
   * acknowledge. The buffer is empty afterwards and the acknowledgement is the
   * last action, after the one dispatch, if any.
   */
  function FlushRequest(s: State, d: Delivery): (r: State)
    ensures r.pending == [] && |r.trace| > 0 && r.trace[|r.trace| - 1] == Acknowledged
    ensures |r.trace| == |s.trace| + (if s.pending == [] then 1 else 2)
  {
    var t := if |s.pending| > 0 then Dispatch(s, d) else s;
    State(t.pending, t.trace + [Acknowledged])
  }

  /** One input the loop can select, with what the network returns if the step dispatches. */
  datatype Input =
    | Arrival(event: Event, delivery: Delivery)
    | TimerFired(delivery: Delivery)
    | FlushRequested(delivery: Delivery)

  /** One iteration of the loop: the cursor stays below BufferSize and the trace does not shrink. */
  function Step(s: State, input: Input): (r: State)
    requires |s.pending| < BufferSize
    ensures |r.pending| < BufferSize && |s.trace| <= |r.trace|
  {
    match input
    case Arrival(e, d) => Receive(s, e, d)
    case TimerFired(d) => Tick(s, d)
    case FlushRequested(d) => FlushRequest(s, d)
  }

  /**
   * The loop run over a sequence of inputs, until shutdown: the cursor stays
   * below BufferSize and the trace does not shrink.
   */
  function Run(s: State, inputs: seq<Input>): (r: State)
    requires |s.pending| < BufferSize
    ensures |r.pending| < BufferSize && |s.trace| <= |r.trace|
    decreases |inputs|
  {
    if inputs == [] then s
    else Run(Step(s, inputs[0]), inputs[1..])
  }

  /** The events carried by the arrivals among `inputs`, in order. */
  function Arrivals(inputs: seq<Input>): seq<Event>
  {
    if inputs == [] then []
    else (if inputs[0].Arrival? then [inputs[0].event] else []) + Arrivals(inputs[1..])
  }

  /** The number of flush requests among `inputs`. */
  function FlushCount(inputs: seq<Input>): nat
  {
    if inputs == [] then 0
    else (if inputs[0].FlushRequested? then 1 else 0) + FlushCount(inputs[1..])
  }

  /** The loop fed only with arrivals, each dispatch meeting the same delivery. */
  function ReceiveAll(s: State, events: seq<Event>, d: Delivery): State
    requires |s.pending| < BufferSize
    decreases |events|
  {
    if events == [] then s else ReceiveAll(Receive(s, events[0], d), events[1..], d)
  }

  /** Reference definition: the full batches of BufferSize events that `events` splits into. */
  function Chunks(events: seq<Event>): seq<seq<Event>>
    decreases |events|
  {
    if |events| < BufferSize then [] else [events[..BufferSize]] + Chunks(events[BufferSize..])
  }

  /** Reference definition: what is left of `events` after its full batches. */
  function Leftover(events: seq<Event>): seq<Event>
    decreases |events|
  {
    if |events| < BufferSize then events else Leftover(events[BufferSize..])
  }

  // ---------------------------------------------------------------------------
  // Properties of the trace functions

  lemma BatchesSnoc(trace: seq<Action>, a: Action)
    ensures Batches(trace + [a]) == Batches(trace) + (if a.Dispatched? then [a.batch] else [])
    ensures Acks(trace + [a]) == Acks(trace) + (if a.Acknowledged? then 1 else 0)
  {
    assert (trace + [a])[..|trace|] == trace;
  }

  lemma FlattenSnoc(batches: seq<seq<Event>>, b: seq<Event>)
    ensures Flatten(batches + [b]) == Flatten(batches) + b
  {
    assert (batches + [b])[..|batches|] == batches;
  }

  /** Flattening distributes over putting one batch in front. */
  lemma {:induction false} FlattenCons(b: seq<Event>, batches: seq<seq<Event>>)
    ensures Flatten([b] + batches) == b + Flatten(batches)
    decreases |batches|
  {
    if batches == [] {
      assert [b] + batches == [] + [b];
      FlattenSnoc([], b);
    } else {
      var init, last := batches[..|batches| - 1], batches[|batches| - 1];
      var front := [b] + init;
      assert batches == init + [last];
      assert [b] + batches == front + [last];
      calc {
        Flatten([b] + batches);
      ==
        Flatten(front + [last]);
      == { FlattenSnoc(front, last); }
        Flatten(front) + last;
      == { FlattenCons(b, init); }
        b + Flatten(init) + last;
      == { FlattenSnoc(init, last); }
        b + Flatten(batches);
      }
    }
  }

  // ---------------------------------------------------------------------------
  // One loop iteration

  /** Dispatching adds exactly the buffered events as one batch and empties the buffer. */
  lemma DispatchStep(s: State, d: Delivery)
    ensures Batches(Dispatch(s, d).trace) == Batches(s.trace) + [s.pending]
    ensures Acks(Dispatch(s, d).trace) == Acks(s.trace)
    ensures Delivered(Dispatch(s, d)) == Delivered(s)
    ensures Dispatch(s, d).pending == []
  {
    BatchesSnoc(s.trace, Dispatched(s.pending, Classify(d)));
    FlattenSnoc(Batches(s.trace), s.pending);
  }

  /**
   * An arrival appends the event to the buffer; when that fills the buffer,
   * exactly one batch of BufferSize events (the old buffer and the new event)
   * is dispatched and the buffer is emptied. Nothing is lost or reordered,
   * and the invariant is kept.
   */
  lemma ReceiveStep(s: State, e: Event, d: Delivery)
    requires Inv(s)
    ensures var r := Receive(s, e, d);
      Inv(r) && Delivered(r) == Delivered(s) + [e] && Acks(r.trace) == Acks(s.trace) &&
      (if |s.pending| == BufferSize - 1
       then r.pending == [] && Batches(r.trace) == Batches(s.trace) + [s.pending + [e]] &&
            |s.pending + [e]| == BufferSize
       else r.pending == s.pending + [e] && Batches(r.trace) == Batches(s.trace))
  {
    if |s.pending| == BufferSize - 1 {
      DispatchStep(State(s.pending + [e], s.trace), d);
    }
  }

  /**
   * A timer tick with a non-empty buffer dispatches it as one batch; with an
   * empty buffer it does nothing. Either way the buffer is empty afterwards.
   */
  lemma TickStep(s: State, d: Delivery)
    requires Inv(s)
    ensures var r := Tick(s, d);
      Inv(r) && r.pending == [] && Delivered(r) == Delivered(s) && Acks(r.trace) == Acks(s.trace) &&
      Batches(r.trace) == Batches(s.trace) + (if |s.pending| > 0 then [s.pending] else [])
  {
    if |s.pending| > 0 {
      DispatchStep(s, d);
    }
  }

  /** What a flush request adds to the dispatched batches and the acknowledgements. */
  lemma FlushBatches(s: State, d: Delivery)
    ensures Batches(FlushRequest(s, d).trace) ==
      Batches(s.trace) + (if |s.pending| > 0 then [s.pending] else [])
    ensures Acks(FlushRequest(s, d).trace) == Acks(s.trace) + 1
  {
    var t := if |s.pending| > 0 then Dispatch(s, d) else s;
    if |s.pending| > 0 {
      DispatchStep(s, d);
    }
    BatchesSnoc(t.trace, Acknowledged);
  }

  /**
   * A flush request dispatches a non-empty buffer as one batch, and in every
   * case ends with exactly one acknowledgement, after that dispatch.
   */
  lemma FlushStep(s: State, d: Delivery)
    requires Inv(s)
    ensures var r := FlushRequest(s, d);
      Inv(r) && r.pending == [] && Delivered(r) == Delivered(s) &&
      Batches(r.trace) == Batches(s.trace) + (if |s.pending| > 0 then [s.pending] else []) &&
      Acks(r.trace) == Acks(s.trace) + 1 &&
      |r.trace| > 0 && r.trace[|r.trace| - 1] == Acknowledged
  {
    var t := Tick(s, d);
    TickStep(s, d);
    var r := FlushRequest(s, d);
    assert r == State(t.pending, t.trace + [Acknowledged]);
    BatchesSnoc(t.trace, Acknowledged);
    assert Batches(r.trace) == Batches(t.trace);
    assert Delivered(r) == Delivered(t);
  }

  /** Taking the oldest queued event into the buffer keeps the client's view consistent. */
  lemma ReceiveKeepsConsistent(s: State, e: Event, d: Delivery, queue: seq<Event>, accepted: seq<Event>)
    requires Consistent(s, [e] + queue, accepted)
    ensures Consistent(Receive(s, e, d), queue, accepted)
  {
    ReceiveStep(s, e, d);
    assert Delivered(s) + ([e] + queue) == (Delivered(s) + [e]) + queue;
  }

  /** A timer tick keeps the client's view consistent. */
  lemma TickKeepsConsistent(s: State, d: Delivery, queue: seq<Event>, accepted: seq<Event>)
    requires Consistent(s, queue, accepted)
    ensures Consistent(Tick(s, d), queue, accepted)
  {
    TickStep(s, d);
  }

  /** A flush request keeps the client's view consistent. */
  lemma FlushKeepsConsistent(s: State, d: Delivery, queue: seq<Event>, accepted: seq<Event>)
    requires Consistent(s, queue, accepted)
    ensures Consistent(FlushRequest(s, d), queue, accepted)
  {
    FlushStep(s, d);
  }

  // ---------------------------------------------------------------------------
  // Whole runs

  /**
   * Conservation and order over any interleaving of inputs: the events
   * dispatched and buffered at the end are those at the start followed by the
   * arriving events, in arrival order; the invariant holds throughout; and
   * every flush request is acknowledged once.
   */
  lemma RunConserves(s: State, inputs: seq<Input>)
    requires Inv(s)
    ensures var r := Run(s, inputs);
      Inv(r) && Delivered(r) == Delivered(s) + Arrivals(inputs) &&
      Acks(r.trace) == Acks(s.trace) + FlushCount(inputs)
  {
    RunKeepsInv(s, inputs);
    RunDelivers(s, inputs);
    RunAcknowledges(s, inputs);
  }

  /** The loop keeps the invariant over any inputs. */
  lemma {:induction false} RunKeepsInv(s: State, inputs: seq<Input>)
    requires Inv(s)
    ensures Inv(Run(s, inputs))
    decreases |inputs|
  {
    if inputs != [] {
      StepConserves(s, inputs[0]);
      RunKeepsInv(Step(s, inputs[0]), inputs[1..]);
    }
  }

  /** The loop takes exactly the arriving events, in order, into what it dispatches or buffers. */
  lemma {:induction false} RunDelivers(s: State, inputs: seq<Input>)
    requires Inv(s)
    ensures Delivered(Run(s, inputs)) == Delivered(s) + Arrivals(inputs)
    decreases |inputs|
  {
    if inputs != [] {
      var head, rest := inputs[0], inputs[1..];
      var t := Step(s, head);
      StepConserves(s, head);
      RunDelivers(t, rest);
      ArrivalsCons(inputs);
      var before, now, later := Delivered(s), Arrivals([head]), Arrivals(rest);
      assert (before + now) + later == before + (now + later);
    }
  }

  /** The loop acknowledges exactly the flush requests among its inputs. */
  lemma {:induction false} RunAcknowledges(s: State, inputs: seq<Input>)
    requires Inv(s)
    ensures Acks(Run(s, inputs).trace) == Acks(s.trace) + FlushCount(inputs)
    decreases |inputs|
  {
    if inputs != [] {
      StepConserves(s, inputs[0]);
      RunAcknowledges(Step(s, inputs[0]), inputs[1..]);
      ArrivalsCons(inputs);
    }
  }

  lemma ArrivalsCons(inputs: seq<Input>)
    requires inputs != []
    ensures Arrivals(inputs) == Arrivals([inputs[0]]) + Arrivals(inputs[1..])
    ensures FlushCount(inputs) == FlushCount([inputs[0]]) + FlushCount(inputs[1..])
  {
    assert [inputs[0]][1..] == [];
  }

  /** One iteration of the loop, whichever input it selects. */
  lemma StepConserves(s: State, input: Input)
    requires Inv(s)
    ensures var t := Step(s, input);
      Inv(t) && Delivered(t) == Delivered(s) + Arrivals([input]) &&
      Acks(t.trace) == Acks(s.trace) + FlushCount([input])
  {
    assert [input][0] == input && [input][1..] == [];
    assert Arrivals([input]) == (if input.Arrival? then [input.event] else []);
    assert FlushCount([input]) == (if input.FlushRequested? then 1 else 0);
    match input {
      case Arrival(e, d) =>
        assert Arrivals([input]) == [e] && FlushCount([input]) == 0;
        ReceiveStep(s, e, d);
      case TimerFired(d) =>
        assert Arrivals([input]) == [] && FlushCount([input]) == 0;
        TickStep(s, d);
      case FlushRequested(d) =>
        assert Arrivals([input]) == [] && FlushCount([input]) == 1;
        FlushStep(s, d);
    }
  }

  /** The reference split puts every event into a full batch or the leftover, in order. */
  lemma {:induction false} ChunksPartition(events: seq<Event>)
    ensures Flatten(Chunks(events)) + Leftover(events) == events
    ensures forall i :: 0 <= i < |Chunks(events)| ==> |Chunks(events)[i]| == BufferSize
    ensures |Leftover(events)| < BufferSize
  {
    ChunksCover(events);
    ChunksFull(events);
  }

  /** The full batches and the leftover of the reference split, concatenated, give back the events. */
  lemma {:induction false} ChunksCover(events: seq<Event>)
    ensures Flatten(Chunks(events)) + Leftover(events) == events
    decreases |events|
  {
    if |events| >= BufferSize {
      var head, tail := events[..BufferSize], events[BufferSize..];
      var chunks, left := Chunks(tail), Leftover(tail);
      calc {
        Flatten(Chunks(events)) + Leftover(events);
      ==
        Flatten([head] + chunks) + left;
      == { FlattenCons(head, chunks); }
        (head + Flatten(chunks)) + left;
      ==
        head + (Flatten(chunks) + left);
      == { ChunksCover(tail); }
        head + tail;
      ==
        events;
      }
    }
  }

  /** Every batch of the reference split is full, and the leftover is not. */
  lemma {:induction false} ChunksFull(events: seq<Event>)
    ensures forall i :: 0 <= i < |Chunks(events)| ==> |Chunks(events)[i]| == BufferSize
    ensures |Leftover(events)| < BufferSize
    decreases |events|
  {
    if |events| >= BufferSize {
      var tail := events[BufferSize..];
      var chunks := Chunks(tail);
      assert Chunks(events) == [events[..BufferSize]] + chunks && Leftover(events) == Leftover(tail);
      ChunksFull(tail);
      forall i | 0 <= i < |Chunks(events)| ensures |Chunks(events)[i]| == BufferSize {
        if i > 0 {
          assert Chunks(events)[i] == chunks[i - 1];
        }
      }
    }
  }

  /**
   * Fed only with arrivals, the worker dispatches exactly the full batches of
   * what it buffered plus what arrived, and keeps the rest buffered: each batch
   * goes out as soon as the buffer fills, before the next event is stored.
   */
  lemma {:induction false} ReceiveAllChunks(pending: seq<Event>, trace: seq<Action>, events: seq<Event>, d: Delivery)
    requires |pending| < BufferSize
    ensures var r := ReceiveAll(State(pending, trace), events, d);
      Batches(r.trace) == Batches(trace) + Chunks(pending + events) &&
      r.pending == Leftover(pending + events)
    decreases |events|
  {
    var all := pending + events;
    if events == [] {
      assert all == pending;
    } else {
      var e, rest := events[0], events[1..];
      var p := pending + [e];
      assert all == p + rest;
      if |p| == BufferSize {
        DispatchStep(State(p, trace), d);
        ReceiveAllChunks([], Dispatch(State(p, trace), d).trace, rest, d);
        assert all[..BufferSize] == p && all[BufferSize..] == rest;
        assert [] + rest == rest;
      } else {
        ReceiveAllChunks(p, trace, rest, d);
      }
    }
  }

  /**
   * Fewer than BufferSize events arriving at an idle worker, then a flush:
   * exactly one batch, holding all of them in arrival order, and one
   * acknowledgement.
   */
  lemma FewEventsThenFlush(events: seq<Event>, d: Delivery)
    requires 0 < |events| < BufferSize
    ensures var r := FlushRequest(ReceiveAll(Initial, events, d), d);
      Batches(r.trace) == [events] && Acks(r.trace) == 1
  {
    var s := ReceiveAll(Initial, events, d);
    ReceiveAllChunks([], [], events, d);
    assert [] + events == events;
    ReceiveAllAcks(Initial, events, d);
    FlushStep(s, d);
  }

  /** Arrivals alone keep the invariant and produce no acknowledgement. */
  lemma {:induction false} ReceiveAllAcks(s: State, events: seq<Event>, d: Delivery)
    requires Inv(s)
    ensures Inv(ReceiveAll(s, events, d))
    ensures Acks(ReceiveAll(s, events, d).trace) == Acks(s.trace)
    decreases |events|
  {
    if events != [] {
      ReceiveStep(s, events[0], d);
      ReceiveAllAcks(Receive(s, events[0], d), events[1..], d);
    }
  }

  /** A flush with nothing buffered dispatches nothing: no network call, only the acknowledgement. */
  lemma IdleFlush(s: State, d: Delivery)
    requires s.pending == []
    ensures FlushRequest(s, d).trace == s.trace + [Acknowledged]
  {
  }

  /**
   * Between one and two buffers' worth of events arriving at an idle worker:
   * the first BufferSize go out as one batch when the buffer fills, and the
   * rest stay buffered.
   */
  lemma OneFullBatch(events: seq<Event>, d: Delivery)
    requires BufferSize < |events| < 2 * BufferSize
    ensures var s := ReceiveAll(Initial, events, d);
      Inv(s) && Batches(s.trace) == [events[..BufferSize]] && s.pending == events[BufferSize..] &&
      Acks(s.trace) == 0
  {
    ReceiveAllChunks([], [], events, d);
    assert [] + events == events;
    var rest := events[BufferSize..];
    assert Chunks(rest) == [] && Leftover(rest) == rest;
    assert Chunks(events) == [events[..BufferSize]] + Chunks(rest);
    ReceiveAllAcks(Initial, events, d);
  }

  /** The same events, then a flush: a second batch with the rest, and one acknowledgement. */
  lemma OneFullBatchThenFlush(events: seq<Event>, d: Delivery)
    requires BufferSize < |events| < 2 * BufferSize
    ensures var r := FlushRequest(ReceiveAll(Initial, events, d), d);
      Batches(r.trace) == [events[..BufferSize], events[BufferSize..]] && Acks(r.trace) == 1
  {
    var s := ReceiveAll(Initial, events, d);
    OneFullBatch(events, d);
    FlushBatches(s, d);
  }

  /**
   * 300 events arriving in order, then the flush that Close performs: events
   * 0..255 go out as one batch when the buffer fills, the 44 events 256..299
   * as a second batch on the flush; two dispatches in all.
   */
  lemma ThreeHundredEvents(events: seq<Event>, d: Delivery)
    requires |events| == 300
    ensures var r := FlushRequest(ReceiveAll(Initial, events, d), d);
      Batches(r.trace) == [events[..256], events[256..]] && |events[256..]| == 44
  {
    OneFullBatchThenFlush(events, d);
  }
}
