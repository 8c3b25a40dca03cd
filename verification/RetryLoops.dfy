/**
 The two retry loops of the command-line client.  The outcome of every attempt is an input:
 `operation(k)` is what attempt k yields.  The durations slept are returned beside the result.
 */
module RetryLoops {
  import opened Wrappers
  import opened Backoff

  // ----- total sleep -----

  function Sum(ds: seq<Duration>): nat {
    if ds == [] then 0 else Sum(ds[..|ds| - 1]) + ds[|ds| - 1]
  }

  lemma SumNothing()
    ensures Sum([]) == 0
  {
  }

  lemma SumSnoc(ds: seq<Duration>, d: Duration)
    ensures Sum(ds + [d]) == Sum(ds) + d
  {
    assert (ds + [d])[..|ds|] == ds;
  }

  // ----- with_retry -----

  datatype CliError =
    | Config(message: string)
    | Api(status: nat, message: string)
    | Network(message: string)
    | Auth(message: string)
    | Timeout(duration: nat)
    | Validation(field: string, message: string)
    | NotFound(resource: string, id: string)
    | RateLimited(retryAfter: nat)
    | Server(status: nat, message: string)
    | Io(message: string)
    | Parse(message: string)
    | WebSocket(message: string)
    | Unknown(message: string)
  {
    predicate IsRetryable() {
      Network? || Timeout? || Server? || RateLimited?
    }
  }

  datatype RetryConfig = RetryConfig(maxRetries: nat, initialDelay: Duration, maxDelay: Duration, multiplier: real)

  /** The first sleep is the initial delay, whatever the maximum; each further one is within the maximum. */
  function SleepBound(config: RetryConfig, sleeps: nat): nat {
    if sleeps == 0 then 0 else config.initialDelay + (sleeps - 1) * config.maxDelay
  }

  lemma SleepBoundStart(config: RetryConfig)
    ensures SleepBound(config, 0) == 0
  {
  }

  lemma SleepBoundStep(config: RetryConfig, k: nat)
    ensures SleepBound(config, k) + IterativeDelay(config.initialDelay, config.multiplier, config.maxDelay, k)
         <= SleepBound(config, k + 1)
  {
    if k > 0 {
      hide IterativeDelay;
      IterativeBounded(config.initialDelay, config.multiplier, config.maxDelay, k);
      assert k * config.maxDelay == (k - 1) * config.maxDelay + config.maxDelay;
    }
  }

  /** The errors that may pass: no connection, no answer in time, a failing server, too many requests. */
  predicate Transient(e: CliError) {
    match e
    case Network(_) => true
    case Timeout(_) => true
    case Server(_, _) => true
    case RateLimited(_) => true
    case _ => false
  }

  lemma RetryableIsTransient()
    ensures forall e: CliError :: e.IsRetryable() <==> Transient(e)
  {
  }

  /** An outcome after which `with_retry` tries again, if it may. */
  predicate Retryable<T>(r: Result<T, CliError>) {
    r.Err? && r.error.IsRetryable()
  }

  /**
   The result is that of the last attempt made: the first success, or else the first error that
   is not retryable, or else the error of the last attempt allowed.
   */
  method WithRetry<T>(config: RetryConfig, operation: nat -> Result<T, CliError>)
    returns (result: Result<T, CliError>, calls: nat, sleeps: seq<Duration>)
    ensures 1 <= calls <= config.maxRetries + 1
    ensures result == operation(calls - 1)
    ensures forall k :: 0 <= k < calls - 1 ==> Retryable(operation(k))
    ensures Retryable(result) ==> calls == config.maxRetries + 1
    ensures forall k :: 0 <= k < calls - 1 ==> operation(k).Err? && Transient(operation(k).error)
    ensures result.Err? && Transient(result.error) ==> calls == config.maxRetries + 1
    ensures |sleeps| == calls - 1
    ensures forall k :: 0 <= k < |sleeps| ==>
              sleeps[k] == IterativeDelay(config.initialDelay, config.multiplier, config.maxDelay, k)
    ensures Sum(sleeps) <= SleepBound(config, calls - 1)
  {
    hide NextDelay, Sum, SleepBound, Transient, CliError.IsRetryable;
    RetryableIsTransient();
    SumNothing();
    SleepBoundStart(config);
    var delay := config.initialDelay;
    var lastError: Option<CliError> := None;
    sleeps := [];
    for attempt := 0 to config.maxRetries + 1
      invariant delay == IterativeDelay(config.initialDelay, config.multiplier, config.maxDelay, attempt)
      invariant attempt <= config.maxRetries
      invariant forall k :: 0 <= k < attempt ==> Retryable(operation(k))
      invariant |sleeps| == attempt
      invariant forall k :: 0 <= k < attempt ==>
                  sleeps[k] == IterativeDelay(config.initialDelay, config.multiplier, config.maxDelay, k)
      invariant Sum(sleeps) <= SleepBound(config, attempt)
    {
      var outcome := operation(attempt);
      calls := attempt + 1;
      match outcome
      case Ok(_) =>
        return outcome, calls, sleeps;
      case Err(e) =>
        if !e.IsRetryable() || attempt == config.maxRetries {
          return outcome, calls, sleeps;
        }
        lastError := Some(e);
        var nextDelay := NextDelay(delay, config.multiplier, config.maxDelay);
        SumSnoc(sleeps, delay);
        SleepBoundStep(config, attempt);
        sleeps := sleeps + [delay];
        delay := nextDelay;
    }
    assert false; // the source returns `last_error` here, which no run reaches
  }

  // ----- NetworkClient::execute -----

  datatype RetryPolicy = RetryPolicy(
    maxAttempts: nat, baseDelay: Duration, maxDelay: Duration, multiplier: real, retryableStatusCodes: seq<nat>)

  /** What one attempt yields: a response, which the response interceptors may refuse, or a transport error. */
  datatype Attempt<R, E> =
    | Response(status: nat, body: R, refused: Option<E>)
    | Transport(error: E)

  datatype ExecuteError<E> =
    | Intercepted(error: E)
    | FailedAfter(attempts: nat, last: E)
    | RequestFailed

  predicate RetriedIfAllowed<R, E>(policy: RetryPolicy, a: Attempt<R, E>) {
    a.Transport? || (a.refused.None? && a.status in policy.retryableStatusCodes)
  }

  /**
   The result is that of the last attempt made: the first response that is not to be retried,
   or else whatever the last attempt allowed brought.
   */
  method Execute<R, E>(policy: RetryPolicy, operation: nat -> Attempt<R, E>)
    returns (result: Result<Attempt<R, E>, ExecuteError<E>>, calls: nat, sleeps: seq<Duration>)
    ensures 1 <= calls <= policy.maxAttempts + 1
    ensures forall k :: 0 <= k < calls - 1 ==> RetriedIfAllowed(policy, operation(k))
    ensures RetriedIfAllowed(policy, operation(calls - 1)) ==> calls == policy.maxAttempts + 1
    ensures var last := operation(calls - 1);
            result ==
              if last.Transport? then Err(FailedAfter(policy.maxAttempts + 1, last.error))
              else if last.refused.Some? then Err(Intercepted(last.refused.value))
              else Ok(last)
    ensures |sleeps| == calls - 1
    ensures forall k :: 0 <= k < |sleeps| ==>
              sleeps[k] == CalculateDelay(policy.baseDelay, policy.multiplier, policy.maxDelay, k)
    ensures Sum(sleeps) <= policy.maxAttempts * policy.maxDelay
  {
    hide CalculateDelay, Sum;
    var lastError: Option<E> := None;
    sleeps := [];
    calls := 0;
    SumNothing();
    for attempt := 0 to policy.maxAttempts + 1
      invariant calls == attempt
      invariant forall k :: 0 <= k < attempt ==> RetriedIfAllowed(policy, operation(k))
      invariant attempt == policy.maxAttempts + 1 ==>
                  operation(attempt - 1).Transport? && lastError == Some(operation(attempt - 1).error)
      invariant |sleeps| == (if attempt <= policy.maxAttempts then attempt else policy.maxAttempts)
      invariant forall k :: 0 <= k < |sleeps| ==>
                  sleeps[k] == CalculateDelay(policy.baseDelay, policy.multiplier, policy.maxDelay, k)
      invariant Sum(sleeps) <= |sleeps| * policy.maxDelay
    {
      var outcome := operation(attempt);
      calls := attempt + 1;
      match outcome
      case Response(status, _, refused) =>
        if refused.Some? {
          AtMostLimit(policy, sleeps);
          return Err(Intercepted(refused.value)), calls, sleeps;
        }
        if status in policy.retryableStatusCodes && attempt < policy.maxAttempts {
          sleeps := Sleep(policy, sleeps, attempt);
          continue;
        }
        AtMostLimit(policy, sleeps);
        return Ok(outcome), calls, sleeps;
      case Transport(e) =>
        lastError := Some(e);
        if attempt < policy.maxAttempts {
          sleeps := Sleep(policy, sleeps, attempt);
        }
    }
    AtMostLimit(policy, sleeps);
    result := match lastError
      case Some(e) => Err(FailedAfter(policy.maxAttempts + 1, e))
      case None => Err(RequestFailed);
  }

  lemma AtMostLimit(policy: RetryPolicy, sleeps: seq<Duration>)
    requires |sleeps| <= policy.maxAttempts && Sum(sleeps) <= |sleeps| * policy.maxDelay
    ensures Sum(sleeps) <= policy.maxAttempts * policy.maxDelay
  {
    hide Sum;
    MoreOfEach(|sleeps|, policy.maxAttempts, policy.maxDelay);
  }

  lemma MoreOfEach(few: nat, many: nat, each: nat)
    requires few <= many
    ensures few * each <= many * each
  {
  }

  method Sleep(policy: RetryPolicy, sleeps: seq<Duration>, attempt: nat) returns (all: seq<Duration>)
    requires |sleeps| == attempt && Sum(sleeps) <= attempt * policy.maxDelay
    ensures all == sleeps + [CalculateDelay(policy.baseDelay, policy.multiplier, policy.maxDelay, attempt)]
    ensures Sum(all) <= (attempt + 1) * policy.maxDelay
  {
    hide CalculateDelay, Sum;
    var delay := CalculateDelay(policy.baseDelay, policy.multiplier, policy.maxDelay, attempt);
    SumSnoc(sleeps, delay);
    ClosedBounded(policy.baseDelay, policy.multiplier, policy.maxDelay, attempt);
    all := sleeps + [delay];
  }
}
