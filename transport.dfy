/**
 * The outcome classification at the end of one dispatch: what the result
 * callback receives after the HTTP request for a batch has been attempted.
 */
module Transport {
  import opened Options

  /**
   * What the network call returned, given to the model as an input: the status
   * code of the response (`None` when no response came back) and whether the
   * HTTP client reported an error.
   */
  datatype Delivery = Delivery(response: Option<int>, requestError: bool)

  /** What the result callback is called with: a status code and whether an error was set. */
  datatype Outcome = Outcome(statusCode: int, failed: bool)

  /**
   * A status outside [200, 400) is reported as an error: every status that is
   * not in the 2xx or 3xx class.
   */
  predicate IsErrorStatus(status: int)
    ensures IsErrorStatus(status) <==> status / 100 != 2 && status / 100 != 3
  {
    status < 200 || status >= 400
  }

  /**
   * A missing response is replaced by an empty one, whose status is 0; the
   * error is whatever the HTTP client returned, replaced by a status error when
   * the status is outside the success range.
   */
  function Classify(d: Delivery): (o: Outcome)
    ensures o.statusCode == (if d.response.Some? then d.response.value else 0)
    ensures d.response.None? ==> o.failed
    ensures !o.failed <==>
      !d.requestError && d.response.Some? && 200 <= d.response.value < 400
  {
    var status := if d.response.Some? then d.response.value else 0;
    Outcome(status, d.requestError || IsErrorStatus(status))
  }
}
