/**
 * The status poller: one request to the CI server per iteration, whose outcome
 * decides whether a build result is published on the channel and whether the
 * loop goes on. HTTP, the response body and JSON decoding are abstracted into
 * the outcome of the request.
 */
module StatusPoller {
  import opened Results

  /** The fields of the CI server's answer that the watcher decodes. */
  datatype BuildStatus = BuildStatus(displayName: string, result: string)

  /** How one request ends. */
  datatype FetchOutcome =
    | TransportError(reason: string)  // the request itself failed
    | Malformed(body: string)         // an answer came, but it is not a build status
    | Parsed(status: BuildStatus)     // an answer that decoded to a build status

  /** The effect of one iteration: the result it publishes, if any, and whether the loop goes on. */
  datatype Step = Step(publish: Option<string>, proceed: bool)

  /**
   * One iteration. A transport error publishes nothing and polls again; a body
   * that does not decode publishes nothing and ends the loop; a decoded status
   * publishes exactly its result.
   */
  function PollStep(outcome: FetchOutcome): (step: Step)
    ensures step.proceed <==> !outcome.Malformed?
    ensures step.publish.Some? <==> outcome.Parsed?
    ensures outcome.Parsed? ==> step.publish.value == outcome.status.result
  {
    match outcome
    case TransportError(_) => Step(None, true)
    case Malformed(_) => Step(None, false)
    case Parsed(status) => Step(Some(status.result), true)
  }

  /** Some request in `outcomes` ends the loop. */
  predicate Stops(outcomes: seq<FetchOutcome>) {
    exists i :: 0 <= i < |outcomes| && outcomes[i].Malformed?
  }

  /** The results the loop publishes, in order, when its requests end in `outcomes`. */
  function Published(outcomes: seq<FetchOutcome>): (published: seq<string>)
  {
    if outcomes == [] then []
    else
      var step := PollStep(outcomes[0]);
      if !step.proceed then []
      else (if step.publish.Some? then [step.publish.value] else []) + Published(outcomes[1..])
  }

  /** Reference definition: the results of all decoded answers, in order. */
  function ParsedResults(outcomes: seq<FetchOutcome>): (results: seq<string>)
    ensures |results| <= |outcomes|
  {
    if outcomes == [] then []
    else (if outcomes[0].Parsed? then [outcomes[0].status.result] else []) + ParsedResults(outcomes[1..])
  }

  /** The position of the first answer that does not decode, or `|outcomes|` when there is none. */
  function FirstMalformed(outcomes: seq<FetchOutcome>): (k: nat)
    ensures k <= |outcomes|
    ensures k < |outcomes| ==> outcomes[k].Malformed?
    ensures forall j :: 0 <= j < k ==> !outcomes[j].Malformed?
  {
    if outcomes == [] then 0
    else if outcomes[0].Malformed? then 0
    else 1 + FirstMalformed(outcomes[1..])
  }

  /**
   * The polling loop, run over a finite prefix `outcomes` of the requests it
   * makes. It returns what it published on the channel and whether it ended.
   */
  method FetchJenkinsStatus(outcomes: seq<FetchOutcome>) returns (published: seq<string>, stopped: bool)
    ensures published == Published(outcomes)
    ensures stopped <==> Stops(outcomes)
  {
    published := [];
    var i := 0;
    while i < |outcomes|
      invariant 0 <= i <= |outcomes|
      invariant forall j :: 0 <= j < i ==> !outcomes[j].Malformed?
      invariant published + Published(outcomes[i..]) == Published(outcomes)
    {
      var outcome := outcomes[i];
      assert outcomes[i..][1..] == outcomes[i + 1..];
      if outcome.TransportError? {
        // logged; the next request is made at once
        i := i + 1;
        continue;
      }
      if outcome.Malformed? {
        // logged; the poller ends and publishes nothing more
        return published, true;
      }
      published := published + [outcome.status.result];
      i := i + 1;
    }
    return published, false;
  }

  /**
   * Everything published is a decoded result, in order, taken from the answers
   * before the first one that does not decode; nothing after it is published.
   */
  lemma {:induction false} PublishedBeforeStop(outcomes: seq<FetchOutcome>)
    ensures Published(outcomes) == ParsedResults(outcomes[..FirstMalformed(outcomes)])
  {
    if outcomes != [] {
      var k := FirstMalformed(outcomes);
      if k > 0 {
        PublishedBeforeStop(outcomes[1..]);
        assert outcomes[1..][..k - 1] == outcomes[..k][1..];
      }
    }
  }

  /** A run ends the loop exactly when its first request does or the rest of it does. */
  lemma StopsUnfold(outcomes: seq<FetchOutcome>)
    requires outcomes != []
    ensures Stops(outcomes) <==> outcomes[0].Malformed? || Stops(outcomes[1..])
  {
  }

  /** Polling in two stretches: the second contributes only if the first did not end the loop. */
  lemma {:induction false} PublishedSplits(front: seq<FetchOutcome>, back: seq<FetchOutcome>)
    ensures Published(front + back) ==
            if Stops(front) then Published(front) else Published(front) + Published(back)
  {
    if front == [] {
      assert front + back == back;
    } else {
      var whole := front + back;
      assert whole[0] == front[0];
      assert whole[1..] == front[1..] + back;
      PublishedSplits(front[1..], back);
      StopsUnfold(front);
    }
  }

  /** After an answer that does not decode, no later request publishes anything. */
  lemma FreezeAfterMalformed(front: seq<FetchOutcome>, body: string, back: seq<FetchOutcome>)
    ensures Published(front + [Malformed(body)] + back) == Published(front + [Malformed(body)])
  {
    var stopped := front + [Malformed(body)];
    assert stopped[|front|].Malformed?;
    PublishedSplits(stopped, back);
  }

  /** A failed request publishes nothing: the results published are those of the other requests. */
  lemma TransportErrorPublishesNothing(front: seq<FetchOutcome>, reason: string, back: seq<FetchOutcome>)
    ensures Published(front + [TransportError(reason)] + back) == Published(front + back)
  {
    var rest := [TransportError(reason)] + back;
    assert front + [TransportError(reason)] + back == front + rest;
    PublishedSplits(front, rest);
    PublishedSplits(front, back);
    assert rest[1..] == back;
  }
}
