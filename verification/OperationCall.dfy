// plan.go's do and transport.go's Do: one operation from the stored configuration error to its data.
module OperationCall {
  import opened Basics
  import opened Backoff
  import opened Optional
  import opened Retry
  import opened RetryRuns
  import opened Routes
  import Config = ClientConfig

  datatype CallError =
    | Misconfigured(argument: ArgumentError)
    | EmptyID
    | EncodeFailed
    | Undelivered(cause: AttemptError)
    | CutOff(message: string)
    | Refused(response: Response)
    | DecodeFailed

  predicate Success(status: int) { 200 <= status <= 299 }

  /** Do's status split over what the pipeline came back with. */
  function Split<T>(out: Outcome, decode: string -> Option<T>): (r: Result<T, CallError>)
    ensures forall res :: r == Err(CallError.Refused(res)) <==>
              out == Delivered(res) && (res.status < 200 || res.status > 299)
    ensures r == Err(DecodeFailed) <==>
              out.Delivered? && 200 <= out.response.status <= 299 && decode(out.response.body) == None
  {
    match out
    case Failed(e) => Err(Undelivered(e))
    case Canceled(m) => Err(CutOff(m))
    case Delivered(res) =>
      if !Success(res.status) then Err(CallError.Refused(res))
      else match decode(res.body)
        case None => Err(DecodeFailed)
        case Some(v) => Ok(v)
  }

  /** The event is a successful answer whose body decodes to v. */
  ghost predicate Brings<T>(e: Event, decode: string -> Option<T>, v: T) {
    && e.Sent? && e.outcome.Answered? && 200 <= e.outcome.response.status <= 299
    && decode(e.outcome.response.body) == Some(v)
  }

  /** A call yields data exactly when the last thing that happened is a 2xx answer that decodes to it. */
  lemma DataIff<T>(call: Call, env: Env, n: nat, trace: seq<Event>, out: Outcome, decode: string -> Option<T>, v: T)
    requires Sane(call.config) && call.IsRun(env, n, trace, out)
    ensures Split(out, decode) == Ok(v) <==> trace != [] && Brings(trace[|trace| - 1], decode, v)
  {
    OutcomeIsLast(call, env, n, trace, out);
  }

  /**
   * do, then Do: a stored configuration error, the path guard and a body that cannot be encoded each
   * stop the call before anything happens; otherwise the pipeline runs once and its outcome is split.
   */
  method Do<T(!new)>(configErr: Option<ArgumentError>, path: Text, encodes: bool, call: Call, env: Env,
                   decode: string -> Option<T>)
    returns (r: Result<T, CallError>, trace: seq<Event>)
    requires Sane(call.config)
    ensures configErr.Some? ==> r == Err(Misconfigured(configErr.value)) && trace == []
    ensures configErr.None? && GuardFires(path) ==> r == Err(EmptyID) && trace == []
    ensures configErr.None? && !GuardFires(path) && !encodes ==> r == Err(EncodeFailed) && trace == []
    ensures configErr.None? && !GuardFires(path) && encodes ==>
              exists n, out :: call.IsRun(env, n, trace, out) && r == Split(out, decode)
    ensures forall v :: r == Ok(v) <==> trace != [] && Brings(trace[|trace| - 1], decode, v)
  {
    trace := [];
    if configErr.Some? {
      return Err(Misconfigured(configErr.value)), trace;
    }
    if GuardFires(path) {
      return Err(EmptyID), trace;
    }
    if !encodes {
      return Err(EncodeFailed), trace;
    }
    var out;
    out, trace := Execute(call, env);
    ghost var n :| call.IsRun(env, n, trace, out);
    forall v ensures Split(out, decode) == Ok(v) <==> trace != [] && Brings(trace[|trace| - 1], decode, v) {
      DataIff(call, env, n, trace, out, decode, v);
    }
    r := Split(out, decode);
  }

  /** An id after the first segment is empty, or there is nothing but an empty segment. */
  predicate MissingID(segments: seq<Text>) {
    segments == [] || segments == [""] || exists i :: 1 <= i < |segments| && segments[i] == ""
  }

  /** An operation on a path joined from segments: an empty id among them is reported and nothing is sent. */
  method OnPath<T(!new)>(configErr: Option<ArgumentError>, segments: seq<Text>, encodes: bool, call: Call, env: Env,
                       decode: string -> Option<T>)
    returns (r: Result<T, CallError>, trace: seq<Event>)
    requires Sane(call.config)
    ensures configErr.None? ==> (r == Err(EmptyID) <==> MissingID(segments))
    ensures configErr.Some? || MissingID(segments) || !encodes ==> trace == []
  {
    GuardIff(segments);
    var path := JoinPath(segments);
    r, trace := Do(configErr, path, encodes, call, env, decode);
  }

  /** The pipeline's fixed inputs for a client configured by the options that were accepted. */
  function ConfiguredCall(s: Config.Settings, verb: string): Call {
    Call(Config.WireRetry(s), s.limiter.Some?, verb)
  }

  /**
   * The config-error contract, from New to any operation: a refused option or an empty token is what
   * every call reports, the leftmost refusal first, and nothing happens; otherwise the call runs
   * with the accepted options' configuration. Nothing is asked of the caller.
   */
  method CallOnNew<T(!new)>(token: string, opts: seq<Config.ClientOption>, path: Text, encodes: bool, verb: string,
                            env: Env, decode: string -> Option<T>)
    returns (r: Result<T, CallError>, trace: seq<Event>)
    ensures !Config.FirstFailure("ynab.New", opts, None) ==>
              && r.Err? && r.error.Misconfigured? && trace == []
              && Config.FirstFailure("ynab.New", opts, Some(r.error.argument))
    ensures Config.FirstFailure("ynab.New", opts, None) && token == "" ==>
              && r == Err(Misconfigured(ArgumentError("ynab.New", "token", "token must not be empty")))
              && trace == []
    ensures (forall o | o in Config.Good(opts) :: Config.Refusal(o).None?)
    ensures Config.FirstFailure("ynab.New", opts, None) && token != "" && !GuardFires(path) && encodes ==>
              var call := ConfiguredCall(Config.Configured(Config.Good(opts)), verb);
              Sane(call.config) && exists n, out :: call.IsRun(env, n, trace, out) && r == Split(out, decode)
  {
    var c := Config.Client.New(token, opts);
    r, trace := Do(c.configErr, path, encodes, Call(c.core.retry, c.core.hasWait, verb), env, decode);
  }
}
