// internal/transport/retry.go and transport.go's attempt: the retry pipeline as a bounded state
// machine against an adversarial server, limiter, token source and caller context.
module Retry {
  import opened Basics
  import opened GoInt
  import opened Backoff

  /** What came of handing one request to the HTTP client. */
  datatype SendOutcome =
    | BuildFailed(error: string)                     // http.NewRequest refused; nothing went out
    | SendFailed(error: string, applied: bool)       // sent, but no usable answer came back
    | Answered(response: Response, applied: bool)

  /**
   * Everything the environment decides around attempt i. `applied` above says whether the server
   * carried the operation out.
   */
  datatype Turn = Turn(
    canceled: Option<string>,        // the context's error, if the backoff before i is cut short
    waitError: Option<string>,
    tokenError: Option<string>,
    send: SendOutcome,
    contextEnded: Option<string>,    // ctx.Err() when classify asks
    dateAtClassify: Option<int64>,   // the HTTP-date reading of this attempt's Retry-After ...
    dateAtSleep: Option<int64>,      // ... and the later reading, when the clock has moved on
    jitter: Draw)

  /** A draw of rand.Float64. */
  type Draw = r: real | 0.0 <= r < 1.0

  type Env = nat -> Turn

  datatype AttemptError = HookError(message: string) | WireError(message: string)

  datatype Event =
    | Waited(attempt: nat, error: Option<string>)
    | Tokened(attempt: nat, error: Option<string>)
    | Sent(attempt: nat, outcome: SendOutcome)
    | Slept(attempt: nat, delay: int64, completed: bool)

  datatype Verdict = Abort(error: AttemptError) | Again | Done

  datatype Outcome = Delivered(response: Response) | Failed(error: AttemptError) | Canceled(message: string)

  /** The fixed inputs of one call; limiter says whether a Wait hook is installed. */
  datatype Call = Call(config: RetryConfig, limiter: bool, verb: string) {
    /** retryVerb. */
    predicate RetryVerb() { config.retryWrites || verb == "GET" || verb == "DELETE" }

    function Budget(): (n: nat)
      ensures n >= 1
    {
      if config.disabled || config.maxAttempts < 1 then 1 else config.maxAttempts
    }

    /** attempt's error, by the stage that failed. */
    function ErrorOf(t: Turn): Option<AttemptError> {
      if limiter && t.waitError.Some? then Some(HookError(t.waitError.value))
      else if t.tokenError.Some? then Some(HookError(t.tokenError.value))
      else match t.send
        case BuildFailed(e) => Some(WireError(e))
        case SendFailed(e, _) => Some(WireError(e))
        case Answered(_, _) => None
    }

    function ResponseOf(t: Turn): Response {
      if ErrorOf(t).None? && t.send.Answered? then t.send.response else NO_RESPONSE
    }

    function EventsOf(i: nat, t: Turn): seq<Event> {
      if limiter && t.waitError.Some? then [Waited(i, t.waitError)]
      else
        (if limiter then [Waited(i, None)] else [])
        + if t.tokenError.Some? then [Tokened(i, t.tokenError)]
          else if t.send.BuildFailed? then [Tokened(i, None)]
          else [Tokened(i, None), Sent(i, t.send)]
    }

    /** classify: one attempt's fate; `ended` is ctx.Err() and `date` the header's HTTP-date reading. */
    function Classify(res: Response, err: Option<AttemptError>, ended: Option<string>, date: Option<int64>): Verdict {
      if err.Some? then
        if err.value.HookError? || ended.Some? || !RetryVerb() then Abort(err.value) else Again
      else if res.status == TOO_MANY_REQUESTS then
        if RetryAfterDelay(res.retryAfter, date) > Cap(config) then Done else Again
      else if res.status == INTERNAL_SERVER_ERROR || res.status == SERVICE_UNAVAILABLE then
        if RetryVerb() then Again else Done
      else Done
    }

    function VerdictOf(t: Turn): Verdict { Classify(ResponseOf(t), ErrorOf(t), t.contextEnded, t.dateAtClassify) }

    /** The wait before attempt i, computed from the attempt just before it and nothing older. */
    function Delay(env: Env, i: nat): (d: int64)
      requires Sane(config) && i >= 1
      ensures 0 < d <= Cap(config)
    {
      RetryDelay(config, i, ResponseOf(env(i - 1)), env(i - 1).dateAtSleep, env(i).jitter)
    }

    /** The events of the first n attempts with the completed sleeps between them. */
    function Trace(env: Env, n: nat): seq<Event>
      requires Sane(config)
    {
      if n == 0 then []
      else
        Trace(env, n - 1)
        + (if n > 1 then [Slept(n - 1, Delay(env, n - 1), true)] else [])
        + EventsOf(n - 1, env(n - 1))
    }

    /** What the caller gets when attempt i is the last. */
    function Final(t: Turn): Outcome {
      match VerdictOf(t)
      case Abort(e) => Failed(e)
      case Done => Delivered(ResponseOf(t))
      case Again =>
        match ErrorOf(t)
        case Some(e) => Failed(e)
        case None => Delivered(ResponseOf(t))
    }

    /** Attempt i is made: all before it asked for another, and the sleeps up to it completed. */
    ghost predicate Reaches(env: Env, i: nat) {
      && (forall j: nat | j < i :: VerdictOf(env(j)).Again?)
      && (forall j: nat | 1 <= j <= i :: env(j).canceled.None?)
    }

    /** The sleep after attempt n - 1 is due, and it is a run's last act if it does not complete. */
    predicate CutShort(env: Env, n: nat)
      requires n >= 1
    {
      VerdictOf(env(n - 1)).Again? && n < Budget()
    }

    /**
     * A complete run of n attempts: each attempt but the last asked for another and was followed by
     * a sleep that completed; the run ends because the last did not ask, because the budget is used
     * up, or because the sleep after it was cut short.
     */
    ghost predicate IsRun(env: Env, n: nat, trace: seq<Event>, out: Outcome)
      requires Sane(config)
    {
      && 1 <= n <= Budget()
      && Reaches(env, n - 1)
      && if CutShort(env, n) then
           && env(n).canceled.Some?
           && out == Canceled(env(n).canceled.value)
           && trace == Trace(env, n) + [Slept(n, Delay(env, n), false)]
         else
           out == Final(env(n - 1)) && trace == Trace(env, n)
    }
  }

  /** attempt: limiter wait, token fetch, request; stops at the first failure. */
  method Attempt(call: Call, i: nat, t: Turn)
    returns (res: Response, err: Option<AttemptError>, events: seq<Event>)
    ensures res == call.ResponseOf(t) && err == call.ErrorOf(t) && events == call.EventsOf(i, t)
    ensures call.limiter && t.waitError.Some? ==>
              err == Some(HookError(t.waitError.value)) && events == [Waited(i, t.waitError)]
    ensures !(call.limiter && t.waitError.Some?) && t.tokenError.Some? ==>
              && err == Some(HookError(t.tokenError.value)) && |events| == (if call.limiter then 2 else 1)
              && events[|events| - 1] == Tokened(i, t.tokenError)
  {
    res, events := NO_RESPONSE, [];
    if call.limiter {
      events := events + [Waited(i, t.waitError)];
      if t.waitError.Some? {
        return res, Some(HookError(t.waitError.value)), events;
      }
    }
    events := events + [Tokened(i, t.tokenError)];
    if t.tokenError.Some? {
      return res, Some(HookError(t.tokenError.value)), events;
    }
    match t.send {
      case BuildFailed(e) =>
        return res, Some(WireError(e)), events;
      case SendFailed(e, _) =>
        events := events + [Sent(i, t.send)];
        return res, Some(WireError(e)), events;
      case Answered(response, _) =>
        events := events + [Sent(i, t.send)];
        return response, None, events;
    }
  }

  /** One backoff: the wait retryDelay computes from the last response, completed unless the context ends first. */
  method Sleep(call: Call, env: Env, i: nat, last: Response) returns (event: Event, canceled: Option<string>)
    requires Sane(call.config) && i > 0 && last == call.ResponseOf(env(i - 1))
    ensures canceled == env(i).canceled && event == Slept(i, call.Delay(env, i), canceled.None?)
  {
    var d := RetryDelay(call.config, i, last, env(i - 1).dateAtSleep, env(i).jitter);
    canceled := env(i).canceled;
    event := Slept(i, d, canceled.None?);
  }

  /** execute. */
  method Execute(call: Call, env: Env) returns (out: Outcome, trace: seq<Event>)
    requires Sane(call.config)
    ensures exists n :: call.IsRun(env, n, trace, out)
  {
    var attempts := call.config.maxAttempts;
    if call.config.disabled || attempts < 1 {
      attempts := 1;
    }
    trace := [];
    var res, sendErr := NO_RESPONSE, None;
    for i := 0 to attempts
      invariant i > 0 ==> call.Reaches(env, i - 1) && call.VerdictOf(env(i - 1)).Again?
      invariant trace == call.Trace(env, i)
      invariant i > 0 ==> res == call.ResponseOf(env(i - 1)) && sendErr == call.ErrorOf(env(i - 1))
    {
      if i > 0 {
        var sleep, canceled := Sleep(call, env, i, res);
        trace := trace + [sleep];
        if canceled.Some? {
          RunIsCut(call, env, i);
          return Canceled(canceled.value), trace;
        }
      }
      var events;
      res, sendErr, events := Attempt(call, i, env(i));
      TraceStep(call, env, i, trace);
      trace := trace + events;
      match call.Classify(res, sendErr, env(i).contextEnded, env(i).dateAtClassify) {
        case Abort(e) =>
          RunEnds(call, env, i);
          return Failed(e), trace;
        case Done =>
          RunEnds(call, env, i);
          return Delivered(res), trace;
        case Again =>
      }
    }
    RunEnds(call, env, attempts - 1);
    out := if sendErr.Some? then Failed(sendErr.value) else Delivered(res);
  }

  lemma TraceStep(call: Call, env: Env, i: nat, trace: seq<Event>)
    requires Sane(call.config)
    requires trace == if i > 0 then call.Trace(env, i) + [Slept(i, call.Delay(env, i), true)] else []
    ensures trace + call.EventsOf(i, env(i)) == call.Trace(env, i + 1)
  {
    if i == 0 { assert call.Trace(env, 1) == call.EventsOf(0, env(0)); }
  }

  lemma RunIsCut(call: Call, env: Env, i: nat)
    requires Sane(call.config)
    requires 0 < i < call.Budget() && call.Reaches(env, i - 1)
    requires call.VerdictOf(env(i - 1)).Again? && env(i).canceled.Some?
    ensures var sleep := Slept(i, call.Delay(env, i), false);
            call.IsRun(env, i, call.Trace(env, i) + [sleep], Canceled(env(i).canceled.value))
  {
  }

  lemma RunEnds(call: Call, env: Env, i: nat)
    requires Sane(call.config)
    requires i < call.Budget() && call.Reaches(env, i)
    requires call.VerdictOf(env(i)).Again? ==> i + 1 == call.Budget()
    ensures call.IsRun(env, i + 1, call.Trace(env, i + 1), call.Final(env(i)))
  {
  }
}
