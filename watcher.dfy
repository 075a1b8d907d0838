/**
 * The poller and the writer joined by the channel. The channel is unbuffered
 * with one producer and one consumer, so the writer receives exactly the
 * published results in publication order; here the writer handles the whole
 * finite sequence the poller published.
 */
module Watcher {
  import opened Indicator
  import opened StatusPoller

  /** What the indicator has been sent once the poller's requests ended in `outcomes`. */
  function IndicatorTrace(outcomes: seq<FetchOutcome>): (trace: seq<string>)
  {
    LedTrace(Published(outcomes))
  }

  /** Both workers over a finite run of requests, writing to `port`. */
  method RunWatcher(outcomes: seq<FetchOutcome>, port: SerialPort) returns (stopped: bool)
    modifies port
    ensures port.written == old(port.written) + IndicatorTrace(outcomes)
    ensures stopped <==> Stops(outcomes)
  {
    var published;
    published, stopped := FetchJenkinsStatus(outcomes);
    UpdateLed(published, port);
  }

  /**
   * The indicator shows green first and then one colour per decoded answer, in
   * order, up to the first answer that does not decode.
   */
  lemma IndicatorFollowsBuilds(outcomes: seq<FetchOutcome>)
    ensures var results := ParsedResults(outcomes[..FirstMalformed(outcomes)]);
            IndicatorTrace(outcomes) == [Green] + Commands(results) &&
            |IndicatorTrace(outcomes)| == |results| + 1
  {
    PublishedBeforeStop(outcomes);
  }

  /** Once an answer fails to decode the indicator is frozen: later requests change nothing on the line. */
  lemma IndicatorFreezes(front: seq<FetchOutcome>, body: string, back: seq<FetchOutcome>)
    ensures IndicatorTrace(front + [Malformed(body)] + back) == IndicatorTrace(front + [Malformed(body)])
  {
    FreezeAfterMalformed(front, body, back);
  }

  /** A failed request leaves the indicator as it was: no command is written for it. */
  lemma TransportErrorKeepsColour(front: seq<FetchOutcome>, reason: string, back: seq<FetchOutcome>)
    ensures IndicatorTrace(front + [TransportError(reason)] + back) == IndicatorTrace(front + back)
  {
    TransportErrorPublishesNothing(front, reason, back);
  }

  /** A failing build, a refused connection, a running build, a garbled answer, then a passing build. */
  lemma WatcherScenario()
    ensures IndicatorTrace([
              Parsed(BuildStatus("job", "FAILURE")),
              TransportError("connection refused"),
              Parsed(BuildStatus("job", "")),
              Malformed("not json"),
              Parsed(BuildStatus("job", "SUCCESS"))]) == [Green, Red, Amber]
  {
  }
}
