# amplitude-go batching client, modelled in Dafny

The Go package `amplitude` is a client for an analytics collection endpoint.
Application code hands it events through `Client.Event`, which checks the two
required fields and then calls `Client.Publish`, or through `Client.Publish`
directly. `Publish` converts the event's wall-clock timestamp to milliseconds
and puts it on a bounded channel without blocking. A single background worker
(`Client.start`) drains the channel into a 256-slot buffer. It dispatches the
buffer as one batch when the buffer fills, when a timer fires, or when a
caller's `Flush` asks for it. `Close` is a flush followed by cancellation,
which makes the worker's shutdown case ready; the worker leaves its loop once
its `select` picks that case. Each dispatch is one HTTP call. The
call's outcome is classified by status code and handed to a result callback.

The model has five modules:

- `Options` (events.dfy): Go's nil-or-value, as `Option`.
- `Events` (events.dfy): the event record, Go's `int64`, and the two pure steps
  applied before enqueueing. `Validate` checks UserID first, then EventType.
  `Normalize` sets `timeInMillis` to `UnixNano / 1_000_000`, written with Go's
  truncating division.
- `Transport` (transport.dfy): the status classification at the end of
  `publish`. It takes the network's answer as an input value, a `Delivery`.
- `Worker` (worker.dfy): the worker loop as a pure state machine. Its state
  holds `buffer[0:index]` and a trace of what the worker has done. The trace
  records dispatched batches with their callback outcome, and flush
  replies. `Receive`, `Tick` and `FlushRequest` are the three loop cases;
  `Run` is the loop over any interleaving of them. The lemmas prove the
  invariants for one step and for whole runs:
  - the cursor stays below 256;
  - batches are never empty and hold at most 256 events;
  - no event is lost, duplicated or reordered;
  - every flush request is acknowledged once;
  - events arriving alone are batched exactly as the reference split
    `Chunks`/`Leftover` says.
- `Agent` (agent.dfy): the `Client` class. It holds the channel as a `seq`
  bounded by `DefaultQueueSize` (250), the worker's `array<Event>` of 256
  slots, the `index` cursor, and ghost logs of the trace and of every event
  the queue accepted. The Go `select` becomes a choice of method:
  `OnEvent`, `OnTimer`, `OnFlush` or `OnShutdown`. Each is proved to move
  the worker state exactly as the matching `Worker` step does, while keeping
  `Valid()`. `Close` sets a `cancelled` flag; `OnShutdown` can run only once
  it is set, and the other worker methods stay callable until then.
  `Valid()` holds the cursor bound, the queue bound and
  conservation: the accepted events equal the dispatched batches, then the
  buffer, then the queue. The Go method `Client.Event` is `Track` here,
  because `Event` names the record type.

Inputs that come from outside the program are parameters:

- the status code and error that the HTTP call returns (`Delivery`);
- which `select` case fires next (the caller picks the method);
- the `UnixNano` value of a non-zero `time.Time`.

## Model

| member | source | states |
|---|---|---|
| `Events.ToMillis` | agent.go:96 | the result is the quotient of Go's truncating division by 1,000,000: the remainder is below one millisecond in magnitude and has the sign of the input |
| `Events.ToMillisDropsSubMillis` | agent.go:96 | an instant that lies `sub` nanoseconds past a whole millisecond `ms`, at or after the epoch, converts to `ms` |
| `Events.Normalize` | agent.go:95-97 | a non-zero Time sets timeInMillis to its millisecond value; a zero Time keeps the caller's timeInMillis; no other field changes |
| `Events.NormalizeIdempotent` | agent.go:95-97 | normalising an already normalised event changes nothing |
| `Events.Validate` | agent.go:107-114 | the event passes iff UserID and EventType are both non-empty; an empty UserID is reported first, an empty EventType only when UserID is present |
| `Events.ValidateAfterNormalize` | agent.go:94-117 | timestamp normalisation does not change whether an event validates |
| `Transport.Classify` | agent.go:180-191 | a missing response reports status 0 and an error; the outcome is a success iff the client reported no error and a response came back with status in [200, 400) |
| `Worker.Dispatch` | agent.go:134-137 | `publish(buffer[0:index]); index = 0` adds the buffered events as exactly one more batch, sends no acknowledgement and empties the buffer; `DispatchStep` adds that nothing is lost |
| `Worker.Receive` | agent.go:139-145 | the cursor advances by one and wraps to 0 when it reaches 256, and a dispatch happens exactly on that wrap; `ReceiveStep` states the batch contents |
| `Worker.Tick` | agent.go:133-137 | the buffer is empty afterwards, one dispatch happens iff the buffer was non-empty, and an empty buffer leaves the state unchanged; `TickStep` states the batch contents |
| `Worker.FlushRequest` | agent.go:147-152 | the buffer is empty afterwards and the acknowledgement is the last action, preceded by one dispatch exactly when the buffer was non-empty; `FlushStep` states the batch contents |
| `Worker.Step` | agent.go:126-154 | one iteration keeps the cursor below 256 and never shortens the trace; `StepConserves` states conservation |
| `Worker.Run` | agent.go:126-154 | any sequence of iterations keeps the cursor below 256 and never shortens the trace; `RunConserves` states conservation and acknowledgement |
| `Transport.IsErrorStatus` | agent.go:187 | a status is an error exactly when it is outside the 2xx and 3xx classes, i.e. outside [200, 400) |
| `Worker.DispatchStep` | agent.go:134-137 | one dispatch adds exactly the buffered events as one batch, empties the buffer and loses nothing |
| `Worker.ReceiveStep` | agent.go:139-145 | an arriving event is appended at the cursor; when that fills the buffer, exactly one 256-event batch (old buffer plus the event) is dispatched and the buffer empties; otherwise nothing is dispatched; the invariant and conservation hold |
| `Worker.TickStep` | agent.go:133-137 | a timer tick dispatches a non-empty buffer as one batch and dispatches nothing on an empty one; the buffer is empty afterwards |
| `Worker.FlushStep` | agent.go:147-152 | a flush request dispatches a non-empty buffer as one batch, then adds exactly one acknowledgement, which is the last action, whether or not it dispatched |
| `Worker.FlushBatches` | agent.go:147-152 | a flush request adds the buffered events as one batch exactly when the buffer is non-empty, and adds exactly one acknowledgement |
| `Worker.ReceiveKeepsConsistent` | agent.go:139-145 | taking the oldest queued event into the buffer keeps "accepted = dispatched, then buffered, then queued" and the invariant |
| `Worker.TickKeepsConsistent` | agent.go:133-137 | a timer tick keeps "accepted = dispatched, then buffered, then queued" and the invariant |
| `Worker.FlushKeepsConsistent` | agent.go:147-152 | a flush request keeps "accepted = dispatched, then buffered, then queued" and the invariant |
| `Worker.IdleFlush` | agent.go:147-152 | a flush with an empty buffer causes no network call, only the acknowledgement |
| `Worker.StepConserves` | agent.go:126-154 | any one loop iteration keeps the invariant, adds only the arriving event to what has been taken, and adds one acknowledgement exactly on a flush request |
| `Worker.RunConserves` | agent.go:126-154 | over any interleaving of arrivals, ticks and flushes, the dispatched batches in order followed by buffer[0:index] are the events taken from the queue in order; the cursor stays below 256; batches are non-empty and at most 256 long; every flush request is acknowledged once |
| `Worker.RunKeepsInv` | agent.go:126-154 | over any inputs the cursor stays below 256 and every dispatched batch holds 1 to 256 events |
| `Worker.RunDelivers` | agent.go:126-154 | over any inputs the dispatched batches in order, followed by buffer[0:index], grow by exactly the arriving events in arrival order |
| `Worker.RunAcknowledges` | agent.go:147-152 | over any inputs the number of acknowledgements grows by exactly the number of flush requests |
| `Worker.ChunksCover` | agent.go:122-145 | the full chunks of the reference split followed by its leftover are the events, in order |
| `Worker.ChunksFull` | agent.go:122-145 | every chunk of the reference split holds exactly 256 events and the leftover fewer than 256 |
| `Worker.ChunksPartition` | agent.go:122-145 | the reference split puts every event, in order, into either a full 256-event batch or a leftover shorter than 256 |
| `Worker.ReceiveAllChunks` | agent.go:139-145 | with only arrivals, the batches dispatched are exactly the full 256-event chunks of the buffered and arriving events, and the leftover stays buffered |
| `Worker.ReceiveAllAcks` | agent.go:139-145 | arrivals alone keep the invariant and never produce an acknowledgement |
| `Worker.FewEventsThenFlush` | agent.go:139-152 | fewer than 256 events arriving at an idle worker, then a flush, give exactly one batch holding all of them in order, and one acknowledgement |
| `Worker.OneFullBatch` | agent.go:139-145 | between 257 and 511 events arriving at an idle worker give exactly one dispatched batch, the first 256, and leave the rest buffered |
| `Worker.OneFullBatchThenFlush` | agent.go:139-152 | the same events followed by a flush give two batches, the first 256 and then the rest, and one acknowledgement |
| `Worker.ThreeHundredEvents` | agent.go:122-152 | 300 events, then the flush of Close, give two batches: events 0..255, then the 44 events 256..299 |
| `Agent.Client.constructor` | agent.go:69-92 | `New` with a result callback installed: an empty queue, a running, uncancelled worker with an empty 256-slot buffer and index 0, and nothing dispatched |
| `Agent.Client.Publish` | agent.go:94-105 | below capacity the normalised event is appended at the tail of the queue and the result is nil; at capacity the result is the queue-full error and the queue is unchanged; the buffer, cursor and trace are untouched |
| `Agent.Client.Track` | agent.go:107-117 | an event without UserID, or else without EventType, is refused with that error and the queue is unchanged; otherwise the result and the new queue are those of Publish |
| `Agent.Client.Send` | agent.go:157-192 | one dispatch of the given batch is recorded, with the classified outcome the callback receives |
| `Agent.Client.OnEvent` | agent.go:139-145 | the oldest queued event is removed from the queue, and the worker state moves exactly as Receive says; the class invariant is kept |
| `Agent.Client.OnTimer` | agent.go:133-137 | the worker state moves exactly as Tick says; the queue is untouched |
| `Agent.Client.OnFlush` | agent.go:147-152 | the worker state moves exactly as FlushRequest says: a dispatch of a non-empty buffer, then the reply |
| `Agent.Client.OnShutdown` | agent.go:130-131 | selectable only after cancellation; the worker leaves its loop; nothing is dispatched, so what was buffered is dropped |
| `Agent.Client.Flush` | agent.go:194-200 | on return the reply is the last thing the worker did, the buffer is empty, and every accepted event has been dispatched or is still in the queue |
| `Agent.Client.Close` | agent.go:202-205 | a flush, then cancellation: the worker state moves as FlushRequest says and the client is marked cancelled, which makes `OnShutdown` selectable; until the worker selects it, `OnEvent`, `OnTimer` and `OnFlush` can still run |

## Behaviour of the code worth knowing

- `Flush` dispatches only what the worker has already taken into its buffer.
  Events still waiting in the channel are not drained first. The worker's
  `select` may pick the flush request while the channel is non-empty, so
  those events are not dispatched when `Flush` returns. `Agent.Client.Flush`
  and `Agent.Client.Close` state this: accepted events are dispatched *or
  still queued*.
- `Close` does not stop the worker by itself. `cancel` (agent.go:204) only
  makes the `ctx.Done()` case of the worker's `select` (agent.go:129-153)
  ready. Until the worker picks that case, it can still take queued events
  into its buffer, dispatch on a timer tick or a full buffer, and serve
  another caller's `Flush`. Events it buffers in that window and has not
  dispatched when it picks the shutdown case are dropped. The model keeps
  this window: `Close` sets `cancelled`, `OnShutdown` requires it, and the
  other worker methods stay callable until `OnShutdown` runs.
- The channel is made with capacity `DefaultQueueSize` at agent.go:77, before
  the options run (agent.go:85-87). An option that sets only the `queueSize`
  field does not resize that channel. The model fixes the capacity at 250.
- `Client.Event` checks `UserID` only. A `DeviceID` alone does not satisfy it.

## Left out

- HTTP request construction, headers, the per-call timeout, `httpClient.Do`
  and closing the body: these are network I/O. Their result enters as the
  `Delivery` parameter.
- The marshal and request-construction error paths (agent.go:166-168,
  173-175). Neither returns. After a marshal error the callback is called
  and the dispatch goes on, so the callback can fire twice for one batch.
  After a request-construction error `req` is nil, so `req.Header.Set`
  (agent.go:177) panics after the callback. This is HTTP plumbing. The
  model records one outcome per dispatch.
- The nil-callback panic: `New` without the `OnPublishFunc` option leaves
  `onPublishFunc` nil (agent.go:72-83), and `publish` calls it
  unconditionally (agent.go:191), so the first dispatch panics. The model's
  constructor stands for `New` with a callback installed, as the test and
  the example program call it (agent_test.go:21, example/main.go:14).
- JSON marshalling of events and of the request body, and the API key: these
  belong to a foreign library behind struct tags. Every field that neither
  validation nor normalisation touches is folded into an opaque `attributes` map.
- The `float64` and `map[string]interface{}` fields (revenue, latitude,
  longitude, event and user properties): floating point and dynamic values;
  they are never inspected by the client.
- The internals of `time.Time`. A time is either the zero Time or an instant
  with a `UnixNano` value. The case of a non-zero time whose `UnixNano`
  overflows int64 is not modelled.
- Goroutines, channel synchronisation, `select` fairness, real timer timing
  and the flush interval. The caller chooses which worker method runs.
  `OnEvent` requires a non-empty queue, because that `select` case can only
  fire when the channel holds an event. The worker methods, `Flush` and
  `Close` require a running worker, because after shutdown nothing serves
  the flush channel and a `Flush` would block forever in Go.
- `Option`, `OnPublishFunc` and the other option constructors: they are
  referenced in agent.go but not defined there, so they are not part of
  this model.
- The test file and the example program: they need a live API key and the
  network.
