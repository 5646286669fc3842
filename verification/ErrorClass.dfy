// errors.go: matching API errors against the sentinels, and how that relates to the pipeline's own
// decision to retry.
module ErrorClass {
  import opened Basics
  import opened GoInt
  import opened Decimal
  import opened Backoff
  import opened Retry

  datatype Sentinel =
    | BadRequest | NotAuthorized
    | Forbidden | SubscriptionLapsed | TrialExpired | UnauthorizedScope | DataLimitReached
    | NotFound | RouteNotFound | ResourceNotFound
    | Conflict | RateLimited | ServerError | ServiceUnavailable

  /** Error: the status and the sub-coded id of the body. */
  datatype ApiError = ApiError(status: int, id: string)

  function SentinelByID(id: string): Option<Sentinel> {
    if id == "400" then Some(BadRequest)
    else if id == "401" then Some(NotAuthorized)
    else if id == "403.1" then Some(SubscriptionLapsed)
    else if id == "403.2" then Some(TrialExpired)
    else if id == "403.3" then Some(UnauthorizedScope)
    else if id == "403.4" then Some(DataLimitReached)
    else if id == "404.1" then Some(RouteNotFound)
    else if id == "404.2" then Some(ResourceNotFound)
    else if id == "409" then Some(Conflict)
    else if id == "429" then Some(RateLimited)
    else if id == "500" then Some(ServerError)
    else if id == "503" then Some(Sentinel.ServiceUnavailable)
    else None
  }

  function SentinelByStatus(status: int): Option<Sentinel> {
    if status == 400 then Some(BadRequest)
    else if status == 401 then Some(NotAuthorized)
    else if status == 403 then Some(Forbidden)
    else if status == 404 then Some(NotFound)
    else if status == 409 then Some(Conflict)
    else if status == 429 then Some(RateLimited)
    else if status == 500 then Some(ServerError)
    else if status == 503 then Some(Sentinel.ServiceUnavailable)
    else None
  }

  /** Error.Is. */
  predicate Is(e: ApiError, target: Sentinel) {
    SentinelByID(e.id) == Some(target) || SentinelByStatus(e.status) == Some(target)
  }

  /** IsRetryable on an API error. */
  predicate IsRetryable(e: ApiError) {
    Is(e, RateLimited) || Is(e, ServerError) || Is(e, Sentinel.ServiceUnavailable)
  }

  predicate RetryableStatus(status: int) { status == 429 || status == 500 || status == 503 }

  predicate RetryableID(id: string) { id == "429" || id == "500" || id == "503" }

  /** The sentinel of a sub-code's whole class; a sentinel without sub-codes is its own class. */
  function ClassOf(s: Sentinel): Sentinel {
    match s
    case SubscriptionLapsed | TrialExpired | UnauthorizedScope | DataLimitReached => Forbidden
    case RouteNotFound | ResourceNotFound => NotFound
    case _ => s
  }

  /** The status a documented id belongs to: the number before its dot. */
  function StatusOf(id: string): int { if |id| >= 3 && AllDigits(id[..3]) then Value(id[..3]) else 0 }

  lemma KnownID(id: string)
    requires SentinelByID(id).Some?
    ensures SentinelByStatus(StatusOf(id)) == Some(ClassOf(SentinelByID(id).value))
  {
    var c := id[..3];
    assert c[..2][..1][..0] == [] && c[..2][..1] == [c[0]] && c[..2] == [c[0], c[1]];
    assert Value(c[..2][..1]) == ValueOf(c[0]);
    assert Value(c[..2]) == 10 * ValueOf(c[0]) + ValueOf(c[1]);
  }

  /**
   * An error with a documented id under its own status matches the sentinel of the id and that of
   * its class, and no other; an unknown id still matches the status class, and nothing else.
   */
  lemma ClassAndSubcode(e: ApiError, s: Sentinel)
    ensures SentinelByID(e.id).Some? && e.status == StatusOf(e.id) ==>
              (Is(e, s) <==> s == SentinelByID(e.id).value || s == ClassOf(SentinelByID(e.id).value))
    ensures SentinelByID(e.id).None? ==> (Is(e, s) <==> SentinelByStatus(e.status) == Some(s))
  {
    if SentinelByID(e.id).Some? { KnownID(e.id); }
  }

  /** The documented ids and their sentinels. */
  lemma DocumentedIDs(s: Sentinel, id: string)
    ensures SentinelByID(id) == Some(s) <==>
            match s
            case BadRequest => id == "400"
            case NotAuthorized => id == "401"
            case SubscriptionLapsed => id == "403.1"
            case TrialExpired => id == "403.2"
            case UnauthorizedScope => id == "403.3"
            case DataLimitReached => id == "403.4"
            case RouteNotFound => id == "404.1"
            case ResourceNotFound => id == "404.2"
            case Conflict => id == "409"
            case RateLimited => id == "429"
            case ServerError => id == "500"
            case ServiceUnavailable => id == "503"
            case Forbidden => false
            case NotFound => false
  {
  }

  /** The documented statuses and their classes. */
  lemma DocumentedStatuses(s: Sentinel, status: int)
    ensures SentinelByStatus(status) == Some(s) <==>
            match s
            case BadRequest => status == 400
            case NotAuthorized => status == 401
            case Forbidden => status == 403
            case NotFound => status == 404
            case Conflict => status == 409
            case RateLimited => status == 429
            case ServerError => status == 500
            case ServiceUnavailable => status == 503
            case _ => false
  {
  }

  /** The three retryable sentinels are named by three statuses and three ids. */
  lemma RetryableIff(e: ApiError)
    ensures IsRetryable(e) <==> RetryableStatus(e.status) || RetryableID(e.id)
  {
    IDNames(e.id);
  }

  lemma IDNames(id: string)
    ensures SentinelByID(id) == Some(RateLimited) <==> id == "429"
    ensures SentinelByID(id) == Some(ServerError) <==> id == "500"
    ensures SentinelByID(id) == Some(Sentinel.ServiceUnavailable) <==> id == "503"
  {
  }

  /**
   * The pipeline does not simply apply IsRetryable. On a response the two agree exactly when a 429 asks
   * for a wait within the cap, a 500 or 503 answers a verb that is retried, and any other status
   * comes without a retryable id. (A 2xx answer never becomes an API error, so the last case is about
   * the remaining refused statuses.)
   */
  lemma AgreesWithClassifyIff(call: Call, res: Response, id: string, date: Option<int64>)
    ensures call.Classify(res, None, None, date).Again? == IsRetryable(ApiError(res.status, id))
            <==> var asked := RetryAfterDelay(res.retryAfter, date);
                 if res.status == 429 then asked <= 60_000_000_000 || asked <= call.config.maxBackoff
                 else if res.status == 500 || res.status == 503 then
                   call.config.retryWrites || call.verb == "GET" || call.verb == "DELETE"
                 else !RetryableID(id)
  {
    RetryableIff(ApiError(res.status, id));
  }
}
