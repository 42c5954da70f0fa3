/** The retry loop of `postSseStream` in frontend/src/utils/sse.ts. */
module SseRetry {
  import opened Arithmetic
  import opened SseStream
  import opened Text

  /**
   What one fetch leads to: an error status; a throw before anything is read (the fetch
   itself, or a missing body); or the reads of a response.  The event handler may throw, at
   the event with the number `throwsAt` if there are that many.
   */
  datatype Attempt = HttpError(status: int) | NoStream | Stream(chunks: seq<string>, ending: Ending, throwsAt: nat)

  /** The rejected promise says whether its message was wrapped as "after retries". */
  datatype Outcome = Returned | Rejected(wrapped: bool)

  /** Everything outside the loop: the result of each fetch, and whether the signal is aborted when it has failed. */
  datatype Env = Env(json: string -> Json, fetch: nat -> Attempt, aborted: nat -> bool, retryable: seq<int>)
  {
    /** The events in the text that attempt `i` receives: of the whole text, or of the parts closed before it broke. */
    function Received(i: nat): seq<Event> {
      match fetch(i)
      case HttpError(_) => []
      case NoStream => []
      case Stream(chunks, ending, _) =>
        if ending == Closed then TextEvents(json, Concat(chunks)) else ClosedEvents(json, Concat(chunks))
    }

    predicate HandlerThrows(i: nat) {
      fetch(i).Stream? && fetch(i).throwsAt < |Received(i)|
    }

    /** The events passed to the handler, the one it throws at included. */
    function Delivered(i: nat): seq<Event> {
      if HandlerThrows(i) then Received(i)[..fetch(i).throwsAt + 1] else Received(i)
    }

    /** The exact condition for another fetch after attempt `i`. */
    predicate Retries(retryCount: int, i: nat) {
      i < retryCount &&
      if fetch(i).HttpError? then fetch(i).status in retryable else Received(i) == [] && !aborted(i)
    }

    /** The exact condition for a normal return. */
    predicate Succeeds(i: nat) {
      fetch(i).Stream? && fetch(i).ending == Closed && Received(i) != [] && !HandlerThrows(i)
    }

    /** How the call ends at an attempt after which there is no other fetch. */
    function Ends(retryCount: int, i: nat): Outcome {
      if Succeeds(i) then Returned
      else Rejected(!aborted(i) && i == retryCount && (fetch(i).HttpError? ==> fetch(i).status in retryable))
    }
  }

  /** What the helpers of `Env` say of an attempt, kind by kind. */
  lemma AttemptMeans(env: Env, retryCount: int, i: nat)
    ensures env.fetch(i).HttpError? ==>
              && env.Delivered(i) == []
              && (env.Retries(retryCount, i) <==> i < retryCount && env.fetch(i).status in env.retryable)
              && env.Ends(retryCount, i) == Rejected(i == retryCount && env.fetch(i).status in env.retryable && !env.aborted(i))
    ensures env.fetch(i).NoStream? ==>
              && env.Delivered(i) == []
              && (env.Retries(retryCount, i) <==> i < retryCount && !env.aborted(i))
              && env.Ends(retryCount, i) == Rejected(i == retryCount && !env.aborted(i))
    ensures env.fetch(i).Stream? ==>
              var Stream(chunks, ending, throwsAt) := env.fetch(i);
              var all := if ending == Closed then TextEvents(env.json, Concat(chunks)) else ClosedEvents(env.json, Concat(chunks));
              && env.Delivered(i) == (if throwsAt < |all| then all[..throwsAt + 1] else all)
              && (env.Retries(retryCount, i) <==> i < retryCount && all == [] && !env.aborted(i))
              && env.Ends(retryCount, i)
                 == if ending == Closed && all != [] && throwsAt >= |all| then Returned else Rejected(i == retryCount && !env.aborted(i))
  {
    hide TextEvents, ClosedEvents, Concat;
  }

  /** The waits after the first `k` attempts, one after another. */
  function Waits(delay: nat, k: nat): nat {
    if k == 0 then 0 else Waits(delay, k - 1) + delay * k
  }

  lemma {:induction false} WaitsAddUp(delay: nat, k: nat)
    ensures 2 * Waits(delay, k) == delay * (k * (k + 1))
  {
    if k > 0 {
      WaitsAddUp(delay, k - 1);
      DistributeRight(k, k - 1, 2);
      DistributeRight(delay, (k - 1) * k, 2 * k);
      DistributeRight(delay, k, k);
    }
  }

  /** `waited` is the back-off after `k` failed attempts, `delay * (1 + .. + k)`, and within the bound for `r` retries. */
  predicate IsBackOff(waited: nat, delay: nat, k: nat, r: nat) {
    2 * waited == delay * (k * (k + 1)) <= delay * (r * (r + 1))
  }

  lemma BackOffBound(delay: nat, k: nat, r: nat)
    requires k <= r
    ensures delay * (k * (k + 1)) <= delay * (r * (r + 1))
  {
    MultiplyOrder(k + 1, r + 1, k);
    MultiplyOrder(k, r, r + 1);
    MultiplyOrder(k * (k + 1), r * (r + 1), delay);
  }

  lemma NoBackOff(delay: nat, r: nat)
    ensures IsBackOff(0, delay, 0, r)
  {
    BackOffBound(delay, 0, r);
  }

  lemma BackOffStep(waited: nat, delay: nat, k: nat, r: nat)
    requires IsBackOff(waited, delay, k, r) && k < r
    ensures IsBackOff(waited + delay * (k + 1), delay, k + 1, r)
  {
    DistributeRight(k + 1, k, 2);
    DistributeRight(delay, k * (k + 1), 2 * (k + 1));
    DistributeRight(delay, k + 1, k + 1);
    BackOffBound(delay, k + 1, r);
  }

  /**
   `postSseStream`.  `log` collects the events passed to `onEvent`, `waited` the total
   back-off.  The attempts before the last delivered nothing, so events are never
   replayed; the call ends at the first attempt after which the condition for another
   fetch fails, and a normal return has delivered every event of one whole response.
   */
  method PostSseStream(env: Env, retryCount: int, retryDelayMs: nat)
    returns (outcome: Outcome, fetches: nat, log: seq<Event>, waited: nat)
    // With a retry count of at least 0 the loop always ends inside its body.
    ensures retryCount >= 0 ==> 1 <= fetches <= retryCount + 1
    ensures forall i: nat | i + 1 < fetches :: env.Retries(retryCount, i) && env.Delivered(i) == []
    ensures retryCount >= 0 ==> !env.Retries(retryCount, fetches - 1)
    ensures retryCount >= 0 ==> outcome == env.Ends(retryCount, fetches - 1)
    ensures retryCount >= 0 ==> log == env.Delivered(fetches - 1)
    ensures outcome == Returned ==>
              && fetches > 0 && env.fetch(fetches - 1).Stream? && log != []
              && log == TextEvents(env.json, Concat(env.fetch(fetches - 1).chunks))
    ensures retryCount >= 0 ==> IsBackOff(waited, retryDelayMs, fetches - 1, retryCount)
    ensures retryCount >= 0 ==> waited == Waits(retryDelayMs, fetches - 1)
    // Only a negative retry count reaches the throw behind the loop.
    ensures retryCount < 0 ==> fetches == 0 && outcome == Rejected(true) && log == [] && waited == 0
  {
    hide TextEvents, ClosedEvents, Concat, IsBackOff;
    log, waited, fetches := [], 0, 0;
    var attempt := 0;
    if retryCount >= 0 { NoBackOff(retryDelayMs, retryCount); }
    while attempt <= retryCount
      invariant 0 <= attempt && (retryCount >= 0 ==> attempt <= retryCount)
      invariant fetches == attempt && log == []
      invariant forall i: nat | i < attempt :: env.Retries(retryCount, i) && env.Delivered(i) == []
      invariant retryCount >= 0 ==> IsBackOff(waited, retryDelayMs, attempt, retryCount)
      invariant waited == Waits(retryDelayMs, attempt)
      decreases retryCount - attempt
    {
      var receivedAnyEvent, retryableFailure, thrown := false, true, true;
      fetches := fetches + 1;
      match env.fetch(attempt) {
        case HttpError(status) =>
          retryableFailure := status in env.retryable;
          thrown := !retryableFailure || attempt == retryCount;
        case NoStream =>
        case Stream(chunks, ending, throwsAt) =>
          var events := ReadStream(env.json, chunks, ending);
          receivedAnyEvent := events != [];
          if throwsAt < |events| {
            log := log + events[..throwsAt + 1];
          } else {
            log := log + events;
            if ending == Closed && receivedAnyEvent { return Returned, fetches, log, waited; }
          }
      }
      if thrown {
        if env.aborted(attempt) || !retryableFailure { return Rejected(false), fetches, log, waited; }
        if receivedAnyEvent || attempt == retryCount { return Rejected(attempt == retryCount), fetches, log, waited; }
      }
      BackOffStep(waited, retryDelayMs, attempt, retryCount);
      waited := waited + retryDelayMs * (attempt + 1);
      attempt := attempt + 1;
    }
    outcome := Rejected(true);
  }

  /**
   End to end: if the response that the last fetch reads is what the server writes -- state
   frames, pings and a done frame, in any number -- then a normal return has passed on
   exactly the state and done frames, each once and in order, however the network cut the
   text and however many fetches failed before.
   */
  lemma FramesDelivered(env: Env, retryCount: nat, fetches: nat, log: seq<Event>, frames: seq<WireFrame>)
    requires fetches > 0 && env.Ends(retryCount, fetches - 1) == Returned && log == env.Delivered(fetches - 1)
    requires Concat(env.fetch(fetches - 1).chunks) == Encoded(frames)
    requires env.json("{}").Value? && forall f <- frames :: f == PING || Carries(env.json, f)
    ensures log == WithoutPings(frames)
  {
    PingsAreSilent(env.json, frames);
    EncodedFramesComeBack(env.json, frames);
  }
}
