/** The conventional optional value; `None` plays the part of Go's nil. */
module Options {
  datatype Option<+T> = None | Some(value: T)
}

/**
 * The analytics event and the two pure steps the client applies to it before it
 * reaches the queue: validation of the required fields and normalisation of the
 * wall-clock timestamp to milliseconds since the Unix epoch.
 */
module Events {
  import opened Options

  /** Go's int64. */
  newtype int64 = x: int | -0x8000_0000_0000_0000 <= x < 0x8000_0000_0000_0000

  /** int64(time.Millisecond): nanoseconds per millisecond. */
  const NanosPerMilli: int64 := 1_000_000

  /**
   * A time.Time reduced to what the client observes of it: whether it is the
   * zero Time, and otherwise its UnixNano value.
   */
  datatype Time = ZeroTime | Instant(unixNano: int64)

  predicate IsZero(t: Time) {
    t.ZeroTime?
  }

  /**
   * An event. `attributes` stands for every other string-valued field
   * (device_id, app_version, platform, ...), keyed by its wire name; the client
   * never looks at them.
   */
  datatype Event = Event(
    userId: string,
    eventType: string,
    time: Time,
    timeInMillis: int64,
    attributes: map<string, string>)

  /** The errors the client returns synchronously to its callers. */
  datatype Error = MissingUserId | MissingEventType | QueueFull

  /**
   * `nanos / int64(time.Millisecond)` in Go: integer division that truncates
   * toward zero, so a negative instant rounds up, not down.
   */
  function ToMillis(nanos: int64): (ms: int64)
    ensures var rem := nanos as int - ms as int * NanosPerMilli as int;
      -(NanosPerMilli as int) < rem < NanosPerMilli as int &&
      (nanos >= 0 ==> 0 <= rem) && (nanos <= 0 ==> rem <= 0)
  {
    var n := nanos as int;
    if n >= 0 then (n / NanosPerMilli as int) as int64
    else (-((-n) / NanosPerMilli as int)) as int64
  }

  /**
   * An instant at or after the epoch that lies `sub` nanoseconds past a whole
   * millisecond `ms` converts to `ms`: the sub-millisecond part is discarded.
   */
  lemma ToMillisDropsSubMillis(ms: int64, sub: int64)
    requires 0 <= ms && 0 <= sub < NanosPerMilli
    requires ms as int * NanosPerMilli as int + sub as int < 0x8000_0000_0000_0000
    ensures ToMillis((ms as int * NanosPerMilli as int + sub as int) as int64) == ms
  {
  }

  /**
   * What Publish does to an event before enqueueing it: a non-zero Time
   * overwrites timeInMillis with its millisecond value; a zero Time leaves the
   * caller's timeInMillis in place.
   */
  function Normalize(e: Event): (r: Event)
    ensures r.userId == e.userId && r.eventType == e.eventType && r.time == e.time
    ensures r.attributes == e.attributes
    ensures IsZero(e.time) ==> r.timeInMillis == e.timeInMillis
    ensures !IsZero(e.time) ==> r.timeInMillis == ToMillis(e.time.unixNano)
  {
    if IsZero(e.time) then e else e.(timeInMillis := ToMillis(e.time.unixNano))
  }

  /** Normalising twice is normalising once. */
  lemma NormalizeIdempotent(e: Event)
    ensures Normalize(Normalize(e)) == Normalize(e)
  {
  }

  /**
   * The check Client.Event makes before it publishes: UserID first, then
   * EventType. `None` means the event may be published.
   */
  function Validate(e: Event): (r: Option<Error>)
    ensures r == None <==> e.userId != "" && e.eventType != ""
    ensures e.userId == "" ==> r == Some(MissingUserId)
    ensures e.userId != "" && e.eventType == "" ==> r == Some(MissingEventType)
  {
    if e.userId == "" then Some(MissingUserId)
    else if e.eventType == "" then Some(MissingEventType)
    else None
  }

  /** Normalisation neither makes a valid event invalid nor the reverse. */
  lemma ValidateAfterNormalize(e: Event)
    ensures Validate(Normalize(e)) == Validate(e)
  {
  }
}
