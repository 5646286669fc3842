// Properties of every run of the retry pipeline.
module RetryRuns {
  import opened Basics
  import opened Permutations
  import opened GoInt
  import opened Backoff
  import opened Retry

  // ----- runs exist and the environment determines them

  lemma RunFrom(call: Call, env: Env, i: nat) returns (n: nat, trace: seq<Event>, out: Outcome)
    requires Sane(call.config) && i < call.Budget() && call.Reaches(env, i)
    ensures call.IsRun(env, n, trace, out)
    decreases call.Budget() - i
  {
    if call.VerdictOf(env(i)).Again? && i + 1 < call.Budget() {
      if env(i + 1).canceled.None? {
        n, trace, out := RunFrom(call, env, i + 1);
      } else {
        n, out := i + 1, Canceled(env(i + 1).canceled.value);
        trace := call.Trace(env, n) + [Slept(n, call.Delay(env, n), false)];
      }
    } else {
      n, trace, out := i + 1, call.Trace(env, i + 1), call.Final(env(i));
    }
  }

  lemma RunUnique(call: Call, env: Env, n1: nat, t1: seq<Event>, o1: Outcome, n2: nat, t2: seq<Event>, o2: Outcome)
    requires Sane(call.config)
    requires call.IsRun(env, n1, t1, o1) && call.IsRun(env, n2, t2, o2)
    ensures n1 == n2 && t1 == t2 && o1 == o2
  {
    NotLonger(call, env, n1, t1, o1, n2, t2, o2);
    NotLonger(call, env, n2, t2, o2, n1, t1, o1);
  }

  lemma NotLonger(call: Call, env: Env, n1: nat, t1: seq<Event>, o1: Outcome, n2: nat, t2: seq<Event>, o2: Outcome)
    requires Sane(call.config)
    requires call.IsRun(env, n1, t1, o1) && call.IsRun(env, n2, t2, o2)
    ensures n1 <= n2
  {
  }

  /** For every environment there is exactly one run. */
  lemma RunDetermined(call: Call, env: Env)
    requires Sane(call.config)
    ensures exists n, trace, out ::
              && call.IsRun(env, n, trace, out)
              && forall n', trace', out' | call.IsRun(env, n', trace', out') ::
                   n' == n && trace' == trace && out' == out
  {
    var n, trace, out := RunFrom(call, env, 0);
    forall n', trace', out' | call.IsRun(env, n', trace', out')
      ensures n' == n && trace' == trace && out' == out
    {
      RunUnique(call, env, n, trace, out, n', trace', out');
    }
  }

  // ----- the shape of a trace

  /** The trace of n attempts ends with the last attempt's own events, whatever came before. */
  ghost function Before(call: Call, env: Env, i: nat): seq<Event>
    requires Sane(call.config)
  {
    call.Trace(env, i) + if i > 0 then [Slept(i, call.Delay(env, i), true)] else []
  }

  lemma TraceSplit(call: Call, env: Env, i: nat)
    requires Sane(call.config)
    ensures call.Trace(env, i + 1) == Before(call, env, i) + call.EventsOf(i, env(i))
  {
  }

  /**
   * Position k holds a request that was preceded by its own attempt's token fetch, and by its own
   * limiter wait when there is a limiter, both successful.
   */
  ghost predicate Guarded(call: Call, trace: seq<Event>, k: nat)
    requires k < |trace|
  {
    trace[k].Sent? ==>
      && k >= 1 && trace[k - 1] == Tokened(trace[k].attempt, None)
      && (call.limiter ==> k >= 2 && trace[k - 2] == Waited(trace[k].attempt, None))
  }

  lemma GuardedInAttempt(call: Call, i: nat, t: Turn, before: seq<Event>, k: nat)
    requires |before| <= k < |before + call.EventsOf(i, t)|
    ensures Guarded(call, before + call.EventsOf(i, t), k)
  {
    var events := call.EventsOf(i, t);
    var j := k - |before|;
    assert (before + events)[k] == events[j];
    if events[j].Sent? {
      assert j == |events| - 1;
      assert (before + events)[k - 1] == events[j - 1];
      if call.limiter { assert (before + events)[k - 2] == events[j - 2]; }
    }
  }

  lemma {:induction false} TraceGuarded(call: Call, env: Env, n: nat, k: nat)
    requires Sane(call.config) && k < |call.Trace(env, n)|
    ensures Guarded(call, call.Trace(env, n), k)
  {
    var before := Before(call, env, n - 1);
    TraceSplit(call, env, n - 1);
    if k >= |before| {
      GuardedInAttempt(call, n - 1, env(n - 1), before, k);
    } else if k < |call.Trace(env, n - 1)| {
      TraceGuarded(call, env, n - 1, k);
    }
  }

  /** In every run each request follows its own attempt's successful Wait and Token. */
  lemma SendsAreGuarded(call: Call, env: Env, n: nat, trace: seq<Event>, out: Outcome, k: nat)
    requires Sane(call.config) && call.IsRun(env, n, trace, out) && k < |trace|
    ensures Guarded(call, trace, k)
  {
    if k < |call.Trace(env, n)| { TraceGuarded(call, env, n, k); }
  }

  // ----- totals over a trace

  ghost function Total(trace: seq<Event>, weight: Event -> nat): nat {
    if trace == [] then 0 else Total(trace[..|trace| - 1], weight) + weight(trace[|trace| - 1])
  }

  function OneIfSent(e: Event): nat { if e.Sent? then 1 else 0 }

  function OneIfApplied(e: Event): nat {
    if e.Sent? && !e.outcome.BuildFailed? && e.outcome.applied then 1 else 0
  }

  function TimeAsleep(e: Event): nat { if e.Slept? && e.delay > 0 then e.delay else 0 }

  lemma {:induction false} TotalConcat(a: seq<Event>, b: seq<Event>, weight: Event -> nat)
    ensures Total(a + b, weight) == Total(a, weight) + Total(b, weight)
  {
    if b == [] {
      assert a + b == a;
    } else {
      TotalConcat(a, b[..|b| - 1], weight);
      assert (a + b)[..|a + b| - 1] == a + b[..|b| - 1];
    }
  }

  /** What one attempt adds to a total: the weights of its Wait, Token and Send. */
  lemma AttemptTotal(call: Call, i: nat, t: Turn, weight: Event -> nat)
    requires forall e: Event | !e.Sent? && !e.Slept? :: weight(e) == 0
    ensures Total(call.EventsOf(i, t), weight) <= weight(Sent(i, t.send))
    ensures call.ErrorOf(t).None? ==> Total(call.EventsOf(i, t), weight) == weight(Sent(i, t.send))
  {
    var events := call.EventsOf(i, t);
    var last := events[|events| - 1];
    assert forall e | e in events[..|events| - 1] :: !e.Sent? && !e.Slept?;
    TotalZero(events[..|events| - 1], weight);
  }

  lemma {:induction false} TotalZero(trace: seq<Event>, weight: Event -> nat)
    requires forall e | e in trace :: weight(e) == 0
    ensures Total(trace, weight) == 0
  {
    if trace != [] { TotalZero(trace[..|trace| - 1], weight); }
  }

  lemma TraceTotalStep(call: Call, env: Env, i: nat, weight: Event -> nat)
    requires Sane(call.config)
    ensures Total(call.Trace(env, i + 1), weight) ==
            Total(call.Trace(env, i), weight)
            + (if i > 0 then weight(Slept(i, call.Delay(env, i), true)) else 0)
            + Total(call.EventsOf(i, env(i)), weight)
  {
    var sleep := if i > 0 then [Slept(i, call.Delay(env, i), true)] else [];
    TraceSplit(call, env, i);
    TotalConcat(Before(call, env, i), call.EventsOf(i, env(i)), weight);
    TotalConcat(call.Trace(env, i), sleep, weight);
    assert Total(sleep, weight) == if i > 0 then weight(sleep[0]) else 0 by {
      if i > 0 { assert sleep[..0] == []; }
    }
  }

  // ----- how often, and how long

  lemma {:induction false} TraceSends(call: Call, env: Env, n: nat)
    requires Sane(call.config)
    ensures Total(call.Trace(env, n), OneIfSent) <= n
  {
    if n > 0 {
      TraceSends(call, env, n - 1);
      TraceTotalStep(call, env, n - 1, OneIfSent);
      AttemptTotal(call, n - 1, env(n - 1), OneIfSent);
    }
  }

  /** No run sends more requests than its budget: MaxAttempts, or one when that is below one or retries are off. */
  lemma SendsBounded(call: Call, env: Env, n: nat, trace: seq<Event>, out: Outcome)
    requires Sane(call.config) && call.IsRun(env, n, trace, out)
    ensures Total(trace, OneIfSent) <= n
    ensures n <= if call.config.disabled || call.config.maxAttempts < 1 then 1 else call.config.maxAttempts
  {
    TraceSends(call, env, n);
    if call.CutShort(env, n) { CutShortTotal(call, env, n, OneIfSent); }
  }

  lemma CutShortTotal(call: Call, env: Env, n: nat, weight: Event -> nat)
    requires Sane(call.config) && n > 0
    ensures var sleep := Slept(n, call.Delay(env, n), false);
            Total(call.Trace(env, n) + [sleep], weight) == Total(call.Trace(env, n), weight) + weight(sleep)
  {
    var sleep := Slept(n, call.Delay(env, n), false);
    TotalConcat(call.Trace(env, n), [sleep], weight);
    assert [sleep][..0] == [];
  }

  lemma {:induction false} TraceSleep(call: Call, env: Env, n: nat)
    requires Sane(call.config) && n > 0
    ensures Total(call.Trace(env, n), TimeAsleep) <= (n - 1) * Cap(call.config)
  {
    TraceTotalStep(call, env, n - 1, TimeAsleep);
    AttemptAwake(call, n - 1, env(n - 1));
    if n > 1 {
      TraceSleep(call, env, n - 1);
      assert (n - 1) * Cap(call.config) == (n - 2) * Cap(call.config) + Cap(call.config);
    }
  }

  lemma AttemptAwake(call: Call, i: nat, t: Turn)
    ensures Total(call.EventsOf(i, t), TimeAsleep) == 0
  {
    TotalZero(call.EventsOf(i, t), TimeAsleep);
  }

  /** The time a run spends asleep, a sleep cut short counted in full, is bounded by the budget and the cap. */
  lemma TotalSleepBounded(call: Call, env: Env, n: nat, trace: seq<Event>, out: Outcome)
    requires Sane(call.config) && call.IsRun(env, n, trace, out)
    ensures Total(trace, TimeAsleep) <= (call.Budget() - 1) * Cap(call.config)
    ensures Cap(call.config) == 60_000_000_000 || Cap(call.config) == call.config.maxBackoff
    ensures call.Budget() == if call.config.disabled || call.config.maxAttempts < 1 then 1 else call.config.maxAttempts
  {
    var m := SleepsTaken(call, env, n, trace, out);
    FewerSleeps(m, call.Budget() - 1, Cap(call.config));
  }

  lemma SleepsTaken(call: Call, env: Env, n: nat, trace: seq<Event>, out: Outcome) returns (m: nat)
    requires Sane(call.config) && call.IsRun(env, n, trace, out)
    ensures m <= call.Budget() - 1 && Total(trace, TimeAsleep) <= m * Cap(call.config)
  {
    TraceSleep(call, env, n);
    if call.CutShort(env, n) {
      m := n;
      CutShortTotal(call, env, n, TimeAsleep);
      OneMore(n, Cap(call.config));
    } else {
      m := n - 1;
    }
  }

  lemma FewerSleeps(a: nat, b: nat, cap: nat)
    requires a <= b
    ensures a * cap <= b * cap
  {
  }

  lemma OneMore(n: int, cap: int)
    ensures n * cap == (n - 1) * cap + cap
  {
  }

  /** MinBackoff doubled i times, and MaxBackoff at most. */
  function Doubled(c: RetryConfig, i: nat): int {
    if c.minBackoff * Pow2(i) <= c.maxBackoff then c.minBackoff * Pow2(i) else c.maxBackoff
  }

  /** The wait a run takes before attempt i, as a function of attempt i - 1's answer alone. */
  ghost predicate FreshDelay(call: Call, env: Env, i: nat, d: int64)
    requires Sane(call.config) && i >= 1
  {
    var t := env(i - 1);
    var c := call.config;
    var reached := (call.limiter ==> t.waitError.None?) && t.tokenError.None? && t.send.Answered?;
    if reached && t.send.response.status == 429 && RetryAfterDelay(t.send.response.retryAfter, t.dateAtSleep) > 0 then
      var asked := RetryAfterDelay(t.send.response.retryAfter, t.dateAtSleep);
      && d <= asked && (d <= 60_000_000_000 || d <= c.maxBackoff)
      && (d < asked ==> d >= 60_000_000_000 && d >= c.maxBackoff)
    else
      var upper := Doubled(c, i);
      && d == c.minBackoff + Drawn(env(i).jitter, upper - c.minBackoff)
      && c.minBackoff <= d <= upper && (d == upper ==> c.minBackoff == c.maxBackoff)
  }

  /**
   * Every sleep of a run is either the Retry-After of the attempt just before it, capped, or a
   * jittered wait within the doubling interval; an older attempt's header is never reused.
   */
  lemma SleepsAreFresh(call: Call, env: Env, n: nat, trace: seq<Event>, out: Outcome, e: Event)
    requires Sane(call.config) && call.IsRun(env, n, trace, out) && e in trace && e.Slept?
    ensures 1 <= e.attempt <= n && FreshDelay(call, env, e.attempt, e.delay)
    ensures !e.completed ==> e == trace[|trace| - 1] && out.Canceled?
  {
    if e in call.Trace(env, n) {
      SleepInTrace(call, env, n, e);
    }
    DelayIsFresh(call, env, e.attempt);
  }

  lemma {:induction false} SleepInTrace(call: Call, env: Env, n: nat, e: Event)
    requires Sane(call.config) && e in call.Trace(env, n) && e.Slept?
    ensures 1 <= e.attempt < n && e.delay == call.Delay(env, e.attempt) && e.completed
  {
    TraceSplit(call, env, n - 1);
    if e in call.Trace(env, n - 1) { SleepInTrace(call, env, n - 1, e); }
  }

  lemma DelayIsFresh(call: Call, env: Env, i: nat)
    requires Sane(call.config) && i >= 1
    ensures FreshDelay(call, env, i, call.Delay(env, i))
  {
    var t, last := env(i - 1), call.ResponseOf(env(i - 1));
    RetryDelayIs(call.config, i, last, t.dateAtSleep, env(i).jitter);
    assert Limit(call.config, i) == Doubled(call.config, i);
    if Honoured(last, t.dateAtSleep) { CappedIs(call.config, RetryAfterDelay(last.retryAfter, t.dateAtSleep)); }
  }

  lemma CappedIs(c: RetryConfig, asked: int)
    ensures var d := Min(asked, Cap(c));
            && d <= asked && (d <= 60_000_000_000 || d <= c.maxBackoff)
            && (d < asked ==> d >= 60_000_000_000 && d >= c.maxBackoff)
  {
  }

  /** Each retry comes right after its own completed sleep, and that right after the attempt before. */
  lemma RetriesSleepFirst(call: Call, env: Env, n: nat, trace: seq<Event>, out: Outcome, i: nat)
    returns (before: seq<Event>, sleep: Event, after: seq<Event>)
    requires Sane(call.config) && call.IsRun(env, n, trace, out) && 1 <= i < n
    ensures trace == before + [sleep] + after && sleep.Slept? && sleep.attempt == i && sleep.completed
    ensures before != [] && !before[|before| - 1].Slept? && before[|before| - 1].attempt == i - 1
    ensures after != [] && !after[0].Slept? && after[0].attempt == i
  {
    sleep := Slept(i, call.Delay(env, i), true);
    before := call.Trace(env, i);
    EndsInAttempt(call, env, i);
    after := Rest(call, env, n, i);
    if call.CutShort(env, n) {
      var cut := [Slept(n, call.Delay(env, n), false)];
      Associate(before + [sleep], after, cut);
      after := after + cut;
    }
  }

  lemma EndsInAttempt(call: Call, env: Env, i: nat)
    requires Sane(call.config) && i >= 1
    ensures var t := call.Trace(env, i); t != [] && !t[|t| - 1].Slept? && t[|t| - 1].attempt == i - 1
  {
    TraceSplit(call, env, i - 1);
    var events := call.EventsOf(i - 1, env(i - 1));
    AttemptEvents(call, i - 1, env(i - 1));
    assert events[|events| - 1] in events;
  }

  /** A longer trace starts with the shorter one. */
  lemma {:induction false} Tail(call: Call, env: Env, a: nat, n: nat) returns (tail: seq<Event>)
    requires Sane(call.config) && a <= n
    ensures call.Trace(env, n) == call.Trace(env, a) + tail
  {
    if a == n {
      tail := [];
    } else {
      var shorter := Tail(call, env, a, n - 1);
      var more := Added(call, env, n - 1);
      tail := Joined(call.Trace(env, a), shorter, more, call.Trace(env, n - 1), call.Trace(env, n));
    }
  }

  lemma Joined(front: seq<Event>, shorter: seq<Event>, more: seq<Event>, now: seq<Event>, later: seq<Event>)
    returns (tail: seq<Event>)
    requires now == front + shorter && later == now + more
    ensures later == front + tail && tail == shorter + more
  {
    Associate(front, shorter, more);
    tail := shorter + more;
  }

  /** What a trace holds behind the sleep before attempt i. */
  lemma Rest(call: Call, env: Env, n: nat, i: nat) returns (after: seq<Event>)
    requires Sane(call.config) && 1 <= i < n
    ensures call.Trace(env, n) == call.Trace(env, i) + [Slept(i, call.Delay(env, i), true)] + after
    ensures after != [] && !after[0].Slept? && after[0].attempt == i
  {
    var own := OwnEvents(call, env, i);
    var tail := Tail(call, env, i + 1, n);
    after := Joined(call.Trace(env, i) + [Slept(i, call.Delay(env, i), true)], own, tail,
                    call.Trace(env, i + 1), call.Trace(env, n));
  }

  lemma OwnEvents(call: Call, env: Env, i: nat) returns (after: seq<Event>)
    requires Sane(call.config) && 1 <= i
    ensures call.Trace(env, i + 1) == call.Trace(env, i) + [Slept(i, call.Delay(env, i), true)] + after
    ensures after != [] && !after[0].Slept? && after[0].attempt == i
  {
    TraceSplit(call, env, i);
    after := call.EventsOf(i, env(i));
    AttemptEvents(call, i, env(i));
    assert after[0] in after;
  }

  lemma Added(call: Call, env: Env, n: nat) returns (more: seq<Event>)
    requires Sane(call.config)
    ensures call.Trace(env, n + 1) == call.Trace(env, n) + more
  {
    var sleep := if n > 0 then [Slept(n, call.Delay(env, n), true)] else [];
    TraceSplit(call, env, n);
    Associate(call.Trace(env, n), sleep, call.EventsOf(n, env(n)));
    more := sleep + call.EventsOf(n, env(n));
  }

  lemma AttemptEvents(call: Call, i: nat, t: Turn)
    ensures call.EventsOf(i, t) != []
    ensures forall e | e in call.EventsOf(i, t) :: !e.Slept? && e.attempt == i
  {
  }

  /** A run is cut short exactly by the sleep it ends with; all sleeps before it completed. */
  lemma CancellationEnds(call: Call, env: Env, n: nat, trace: seq<Event>, out: Outcome)
    requires Sane(call.config) && call.IsRun(env, n, trace, out)
    ensures forall i | 1 <= i < n :: env(i).canceled.None?
    ensures out.Canceled? ==> env(n).canceled == Some(out.message)
  {
  }

  // ----- when a run goes on

  /** The documented reasons for another attempt. */
  predicate Deserves(call: Call, t: Turn) {
    var reached := (call.limiter ==> t.waitError.None?) && t.tokenError.None?;
    var retried := call.config.retryWrites || call.verb in {"GET", "DELETE"};
    || (reached && t.send.Answered? && t.send.response.status == 429 && Patient(call, t))
    || (reached && t.send.Answered? && retried && t.send.response.status in {500, 503})
    || (reached && !t.send.Answered? && retried && t.contextEnded.None?)
  }

  /** The wait the answer asks for is at most a minute, or at most MaxBackoff. */
  predicate Patient(call: Call, t: Turn)
    requires t.send.Answered?
  {
    var asked := RetryAfterDelay(t.send.response.retryAfter, t.dateAtClassify);
    asked <= 60_000_000_000 || asked <= call.config.maxBackoff
  }

  /**
   * A run goes on after attempt i (to another attempt, or to a backoff that is cut short) exactly
   * when i deserves it and the budget has room: 429 on any verb unless its Retry-After exceeds the
   * cap, 500, 503 and wire failures on a retryable verb while the caller's context lives.
   */
  lemma GoesOnIff(call: Call, env: Env, n: nat, trace: seq<Event>, out: Outcome, i: nat)
    requires Sane(call.config) && call.IsRun(env, n, trace, out) && i < n
    ensures i < n - 1 || out.Canceled? <==>
            Deserves(call, env(i)) && !call.config.disabled && i + 1 < call.config.maxAttempts
  {
    DeservesIff(call, env(i));
  }

  lemma DeservesIff(call: Call, t: Turn)
    ensures call.VerdictOf(t).Again? <==> Deserves(call, t)
  {
  }

  // ----- what the caller is told

  /** The last event of an attempt tells how it ended. */
  ghost predicate Tells(call: Call, i: nat, t: Turn, last: Event) {
    match call.ErrorOf(t)
    case None => last == Sent(i, t.send) && t.send.Answered?
    case Some(HookError(m)) => (last.Waited? || last.Tokened?) && last.attempt == i && last.error == Some(m)
    case Some(WireError(m)) =>
      || (last == Sent(i, t.send) && t.send.SendFailed? && t.send.error == m)
      || (last == Tokened(i, None) && t.send == BuildFailed(m))
  }

  lemma AttemptTells(call: Call, i: nat, t: Turn)
    ensures Tells(call, i, t, call.EventsOf(i, t)[|call.EventsOf(i, t)| - 1])
  {
  }

  lemma LastEvent(call: Call, env: Env, i: nat)
    requires Sane(call.config)
    ensures var trace := call.Trace(env, i + 1);
            trace != [] && Tells(call, i, env(i), trace[|trace| - 1])
  {
    TraceSplit(call, env, i);
    AttemptTells(call, i, env(i));
  }

  /** The outcome of a run of n attempts is what its last event says. */
  ghost predicate Reports(env: Env, n: nat, out: Outcome, last: Event)
    requires n >= 1
  {
    match out
    case Delivered(r) => last.Sent? && last.attempt == n - 1 && last.outcome.Answered? && last.outcome.response == r
    case Failed(HookError(m)) => (last.Waited? || last.Tokened?) && last.attempt == n - 1 && last.error == Some(m)
    case Failed(WireError(m)) =>
      || (last.Sent? && last.attempt == n - 1 && last.outcome.SendFailed? && last.outcome.error == m)
      || (last == Tokened(n - 1, None) && env(n - 1).send == BuildFailed(m))
    case Canceled(m) => last.Slept? && !last.completed && last.attempt == n && env(n).canceled == Some(m)
  }

  lemma FinalReports(call: Call, env: Env, n: nat, last: Event)
    requires n >= 1 && Tells(call, n - 1, env(n - 1), last)
    ensures Reports(env, n, call.Final(env(n - 1)), last)
  {
  }

  /**
   * A delivered response is the one the run's last event received; a wire error is that of the last
   * request (or of building it); a hook error is that of the last hook consulted; a cancellation is
   * that of the last sleep. Nothing stale is ever reported.
   */
  lemma OutcomeIsLast(call: Call, env: Env, n: nat, trace: seq<Event>, out: Outcome)
    requires Sane(call.config) && call.IsRun(env, n, trace, out)
    ensures trace != [] && Reports(env, n, out, trace[|trace| - 1])
  {
    if call.CutShort(env, n) { CutReports(call, env, n, out); } else { FinalIsLast(call, env, n); }
  }

  lemma FinalIsLast(call: Call, env: Env, n: nat)
    requires Sane(call.config) && n >= 1
    ensures var trace := call.Trace(env, n);
            trace != [] && Reports(env, n, call.Final(env(n - 1)), trace[|trace| - 1])
  {
    LastEvent(call, env, n - 1);
    FinalReports(call, env, n, call.Trace(env, n)[|call.Trace(env, n)| - 1]);
  }

  lemma CutReports(call: Call, env: Env, n: nat, out: Outcome)
    requires Sane(call.config) && n >= 1
    requires env(n).canceled.Some? && out == Canceled(env(n).canceled.value)
    ensures Reports(env, n, out, Slept(n, call.Delay(env, n), false))
  {
  }

  /** A limiter or token failure ends the run: it is the last event and decides the outcome. */
  lemma HookFailureEnds(call: Call, env: Env, n: nat, trace: seq<Event>, out: Outcome, k: nat)
    requires Sane(call.config) && call.IsRun(env, n, trace, out)
    requires k < |trace| && (trace[k].Waited? || trace[k].Tokened?) && trace[k].error.Some?
    ensures k == |trace| - 1 && out == Failed(HookError(trace[k].error.value))
  {
    if k < |call.Trace(env, n)| { HookFailureInTrace(call, env, n, k); }
  }

  lemma HookFailureInTrace(call: Call, env: Env, n: nat, k: nat)
    requires Sane(call.config) && n > 0 && k < |call.Trace(env, n)|
    requires forall j: nat | j < n - 1 :: call.VerdictOf(env(j)).Again?
    requires var e := call.Trace(env, n)[k]; (e.Waited? || e.Tokened?) && e.error.Some?
    ensures k == |call.Trace(env, n)| - 1
    ensures call.ErrorOf(env(n - 1)) == Some(HookError(call.Trace(env, n)[k].error.value))
  {
    var before, events := Before(call, env, n - 1), call.EventsOf(n - 1, env(n - 1));
    TraceSplit(call, env, n - 1);
    assert (before + events)[k] == if k < |before| then before[k] else events[k - |before|];
    if k < |before| {
      EarlierHooksFine(call, env, n - 1, k);
    } else {
      HookFailureInAttempt(call, n - 1, env(n - 1), k - |before|);
    }
  }

  lemma HookFailureInAttempt(call: Call, i: nat, t: Turn, j: nat)
    requires j < |call.EventsOf(i, t)|
    requires var e := call.EventsOf(i, t)[j]; (e.Waited? || e.Tokened?) && e.error.Some?
    ensures j == |call.EventsOf(i, t)| - 1
    ensures call.ErrorOf(t) == Some(HookError(call.EventsOf(i, t)[j].error.value))
  {
  }

  lemma {:induction false} EarlierHooksFine(call: Call, env: Env, i: nat, k: nat)
    requires Sane(call.config) && k < |Before(call, env, i)|
    requires forall j: nat | j < i :: call.VerdictOf(env(j)).Again?
    ensures var e := Before(call, env, i)[k]; (e.Waited? || e.Tokened?) ==> e.error.None?
  {
    if i > 0 && k < |call.Trace(env, i)| {
      var before, events := Before(call, env, i - 1), call.EventsOf(i - 1, env(i - 1));
      TraceSplit(call, env, i - 1);
      assert Before(call, env, i)[k] == if k < |before| then before[k] else events[k - |before|];
      if k < |before| {
        EarlierHooksFine(call, env, i - 1, k);
      } else {
        HooksFine(call, i - 1, env(i - 1), k - |before|);
      }
    }
  }

  /** An attempt that asks for another had no hook failure. */
  lemma HooksFine(call: Call, i: nat, t: Turn, j: nat)
    requires call.VerdictOf(t).Again? && j < |call.EventsOf(i, t)|
    ensures var e := call.EventsOf(i, t)[j]; (e.Waited? || e.Tokened?) ==> e.error.None?
  {
    var e := call.EventsOf(i, t)[j];
    if (e.Waited? || e.Tokened?) && e.error.Some? { HookFailureInAttempt(call, i, t, j); }
  }

  // ----- write safety

  /** The server's side of RFC 6585, section 4: a request answered 429 was not carried out. */
  ghost predicate Rejects429(env: Env) {
    forall i: nat :: env(i).send.Answered? && env(i).send.response.status == 429 ==> !env(i).send.applied
  }

  /**
   * Without RetryWrites, and for a verb other than GET and DELETE, every attempt before the last
   * was answered 429 with a Retry-After within the cap.
   */
  lemma EarlierWritesRejected(call: Call, env: Env, n: nat, trace: seq<Event>, out: Outcome, i: nat)
    requires Sane(call.config) && call.IsRun(env, n, trace, out)
    requires !call.config.retryWrites && call.verb != "GET" && call.verb != "DELETE"
    requires i < n - 1 || (i == n - 1 && out.Canceled?)
    ensures (call.limiter ==> env(i).waitError.None?) && env(i).tokenError.None?
    ensures env(i).send.Answered? && env(i).send.response.status == 429 && Patient(call, env(i))
  {
    assert call.VerdictOf(env(i)).Again?;
  }

  lemma {:induction false} WritesApplied(call: Call, env: Env, n: nat)
    requires Sane(call.config) && !call.RetryVerb() && Rejects429(env)
    requires forall j: nat | j < n - 1 :: call.VerdictOf(env(j)).Again?
    ensures Total(call.Trace(env, n), OneIfApplied) <= 1
    ensures n > 0 && call.VerdictOf(env(n - 1)).Again? ==> Total(call.Trace(env, n), OneIfApplied) == 0
  {
    if n > 0 {
      WritesApplied(call, env, n - 1);
      TraceTotalStep(call, env, n - 1, OneIfApplied);
      AttemptApplied(call, n - 1, env(n - 1));
    }
  }

  lemma AttemptApplied(call: Call, i: nat, t: Turn)
    ensures Total(call.EventsOf(i, t), OneIfApplied) <= 1
    ensures call.ErrorOf(t).None? && t.send.Answered? && !t.send.applied ==>
              Total(call.EventsOf(i, t), OneIfApplied) == 0
  {
    AttemptTotal(call, i, t, OneIfApplied);
  }

  /** At most one attempt of such a call can have been carried out. */
  lemma WriteSafety(call: Call, env: Env, n: nat, trace: seq<Event>, out: Outcome)
    requires Sane(call.config) && call.IsRun(env, n, trace, out)
    requires !call.config.retryWrites && call.verb != "GET" && call.verb != "DELETE" && Rejects429(env)
    ensures Total(trace, OneIfApplied) <= 1
  {
    WritesApplied(call, env, n);
    if call.CutShort(env, n) { CutShortTotal(call, env, n, OneIfApplied); }
  }

  /** The environment in which the server carries every request out and still answers 500. */
  function Stubborn(): Env {
    (i: nat) => Turn(None, None, None, Answered(Response(INTERNAL_SERVER_ERROR, "", ""), true), None, None, None, 0.0)
  }

  lemma {:induction false} StubbornApplied(call: Call, n: nat)
    requires Sane(call.config)
    ensures Total(call.Trace(Stubborn(), n), OneIfApplied) == n
  {
    if n > 0 {
      StubbornApplied(call, n - 1);
      TraceTotalStep(call, Stubborn(), n - 1, OneIfApplied);
      AttemptTotal(call, n - 1, Stubborn()(n - 1), OneIfApplied);
    }
  }

  ghost predicate AppliedAtMostOnce(call: Call)
    requires Sane(call.config)
  {
    forall env: Env, n, trace, out | Rejects429(env) && call.IsRun(env, n, trace, out) ::
      Total(trace, OneIfApplied) <= 1
  }

  /** The guarantee holds for exactly the calls that do not retry their verb, or have one attempt. */
  lemma WriteSafetyIff(call: Call)
    requires Sane(call.config)
    ensures AppliedAtMostOnce(call) <==>
            || (!call.config.retryWrites && call.verb != "GET" && call.verb != "DELETE")
            || call.config.disabled || call.config.maxAttempts <= 1
  {
    if !call.RetryVerb() {
      forall env: Env, n, trace, out | Rejects429(env) && call.IsRun(env, n, trace, out)
        ensures Total(trace, OneIfApplied) <= 1
      {
        WriteSafety(call, env, n, trace, out);
      }
    } else if call.Budget() == 1 {
      forall env: Env, n, trace, out | Rejects429(env) && call.IsRun(env, n, trace, out)
        ensures Total(trace, OneIfApplied) <= 1
      {
        OneAttemptApplied(call, env, n, trace, out);
      }
    } else {
      var n, trace, out := RunFrom(call, Stubborn(), 0);
      assert call.VerdictOf(Stubborn()(n - 1)).Again? && Stubborn()(n).canceled.None?;
      StubbornApplied(call, n);
    }
  }

  lemma OneAttemptApplied(call: Call, env: Env, n: nat, trace: seq<Event>, out: Outcome)
    requires Sane(call.config) && call.IsRun(env, n, trace, out) && call.Budget() == 1
    ensures Total(trace, OneIfApplied) <= 1
  {
    TraceTotalStep(call, env, 0, OneIfApplied);
    AttemptTotal(call, 0, env(0), OneIfApplied);
    assert n == 1;
  }
}
