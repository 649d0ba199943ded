/**
 * `_request_with_retry`: one HTTP GET, retried with exponential backoff on network errors and
 * on rate limiting (status 429), both sharing one attempt counter.
 *
 * The transport is an oracle `outcomes`: `outcomes(i)` is what the (i+1)-th call yields.
 * Sleeping is recorded, not performed: the run reports every backoff duration in seconds.
 */
module Retry {
  import opened Klines

  /** What one transport call yields. */
  datatype Outcome =
    | Success(data: seq<Kline>)    // a 2xx response whose body parsed
    | NetworkError            // `requests.ConnectionError` or `requests.Timeout`
    | HttpError(status: int)  // `raise_for_status` raised `requests.HTTPError`

  /** The exception that escapes the retry loop. */
  datatype FetchError = ConnectionFailed | HttpFailed(status: int)

  /** What the caller sees: the page, or the exception. */
  datatype Reply = Fetched(data: seq<Kline>) | Raised(error: FetchError)

  /** A whole run: the reply, how many transport calls were made, and the sleeps in order. */
  datatype RetryRun = RetryRun(reply: Reply, calls: nat, sleeps: seq<nat>)

  const RateLimited := 429
  /** The default `retries` argument. */
  const DefaultRetries := 3

  function Pow2(n: nat): (p: nat)
    ensures p >= 1
  {
    if n == 0 then 1 else 2 * Pow2(n - 1)
  }

  /** Seconds slept after a retryable failure on attempt `attempt`: `2 ** attempt`. */
  function Backoff(attempt: nat): nat
  {
    Pow2(attempt)
  }

  /** A failure the loop retries: a network error or a 429. */
  predicate Retryable(o: Outcome)
  {
    o.NetworkError? || (o.HttpError? && o.status == RateLimited)
  }

  /**
   * The run from attempt `attempt` on, of at most `retries` attempts in all
   * (`for attempt in range(1, retries + 1)`); attempt `a` makes call `a - 1`.
   */
  function RetryFrom(outcomes: nat -> Outcome, attempt: nat, retries: int): RetryRun
    requires attempt >= 1
    decreases retries - attempt
  {
    if attempt > retries then RetryRun(Fetched([]), 0, [])   // the loop ran out: `return []`
    else
      match outcomes(attempt - 1)
      case Success(data) => RetryRun(Fetched(data), 1, [])
      case NetworkError =>
        if attempt == retries then RetryRun(Raised(ConnectionFailed), 1, [])
        else AfterSleep(attempt, RetryFrom(outcomes, attempt + 1, retries))
      case HttpError(status) =>
        if status == RateLimited then AfterSleep(attempt, RetryFrom(outcomes, attempt + 1, retries))
        else RetryRun(Raised(HttpFailed(status)), 1, [])
  }

  /** One failed call and its backoff, followed by `rest`. */
  function AfterSleep(attempt: nat, rest: RetryRun): RetryRun
  {
    RetryRun(rest.reply, rest.calls + 1, [Backoff(attempt)] + rest.sleeps)
  }

  /** The whole run of `_request_with_retry(..., retries)`. */
  function RetrySpec(outcomes: nat -> Outcome, retries: int): RetryRun
  {
    RetryFrom(outcomes, 1, retries)
  }

  /** The retry loop itself; the run it makes is exactly `RetrySpec`. */
  method RequestWithRetry(outcomes: nat -> Outcome, retries: int) returns (reply: Reply, calls: nat, sleeps: seq<nat>)
    ensures RetryRun(reply, calls, sleeps) == RetrySpec(outcomes, retries)
  {
    calls, sleeps := 0, [];
    var attempt := 1;
    while attempt <= retries
      invariant 1 <= attempt && calls == attempt - 1
      invariant attempt <= retries + 1 || attempt == 1
      invariant var rest := RetryFrom(outcomes, attempt, retries);
                RetrySpec(outcomes, retries) == RetryRun(rest.reply, calls + rest.calls, sleeps + rest.sleeps)
      decreases retries - attempt
    {
      var outcome := outcomes(calls);
      calls := calls + 1;
      match outcome {
        case Success(data) =>
          reply := Fetched(data);
          return;
        case NetworkError =>
          if attempt == retries {
            reply := Raised(ConnectionFailed);
            return;
          }
          sleeps := sleeps + [Backoff(attempt)];
        case HttpError(status) =>
          if status != RateLimited {
            reply := Raised(HttpFailed(status));
            return;
          }
          sleeps := sleeps + [Backoff(attempt)];
      }
      attempt := attempt + 1;
    }
    reply := Fetched([]);
  }

  // ----- what the run promises -----

  /** The number of attempts left from `attempt` on. */
  function Remaining(attempt: nat, retries: int): nat
  {
    if retries < attempt then 0 else retries - attempt + 1
  }

  /**
   * From attempt `attempt` on: at most the remaining attempts are made; each sleep doubles,
   * starting at `2 ** attempt`; every call but the last one was a retryable failure.
   */
  lemma {:induction false} RetryFromShape(outcomes: nat -> Outcome, attempt: nat, retries: int)
    requires attempt >= 1
    ensures var run := RetryFrom(outcomes, attempt, retries);
            && run.calls <= Remaining(attempt, retries)
            && (run.calls == 0 <==> retries < attempt)
            && |run.sleeps| <= run.calls
            && (forall i :: 0 <= i < |run.sleeps| ==> run.sleeps[i] == Backoff(attempt + i))
            && (forall j :: attempt - 1 <= j < attempt + run.calls - 2 ==> Retryable(outcomes(j)))
    decreases retries - attempt
  {
    if attempt <= retries {
      var o := outcomes(attempt - 1);
      if Retryable(o) && !(o.NetworkError? && attempt == retries) {
        RetryFromShape(outcomes, attempt + 1, retries);
        var rest := RetryFrom(outcomes, attempt + 1, retries);
        var run := RetryFrom(outcomes, attempt, retries);
        assert run == AfterSleep(attempt, rest);
        forall i | 0 <= i < |run.sleeps| ensures run.sleeps[i] == Backoff(attempt + i) {
          if i > 0 {
            assert run.sleeps[i] == rest.sleeps[i - 1];
          }
        }
      }
    }
  }

  /**
   * How a run ends, from attempt `attempt` on: with the data of the last call, with that
   * call's non-429 status, with a network error on the final attempt (no sleep after it),
   * or, after a 429 on the final attempt and its sleep, with an empty page.
   */
  lemma {:induction false} RetryFromEnding(outcomes: nat -> Outcome, attempt: nat, retries: int)
    requires 1 <= attempt <= retries
    ensures var run := RetryFrom(outcomes, attempt, retries);
            var last := outcomes(attempt - 1 + run.calls - 1);
            && run.calls >= 1
            && (run.reply.Fetched? && last.Success? ==> run.reply.data == last.data && |run.sleeps| == run.calls - 1)
            && (run.reply.Fetched? && !last.Success? ==>
                  run.reply.data == [] && last == HttpError(RateLimited)
                  && attempt - 1 + run.calls == retries && |run.sleeps| == run.calls)
            && (run.reply == Raised(ConnectionFailed) ==>
                  last.NetworkError? && attempt - 1 + run.calls == retries && |run.sleeps| == run.calls - 1)
            && (run.reply.Raised? && run.reply.error.HttpFailed? ==>
                  last == HttpError(run.reply.error.status) && run.reply.error.status != RateLimited
                  && |run.sleeps| == run.calls - 1)
    decreases retries - attempt
  {
    var o := outcomes(attempt - 1);
    if Retryable(o) && !(o.NetworkError? && attempt == retries) {
      var rest := RetryFrom(outcomes, attempt + 1, retries);
      if attempt < retries {
        RetryFromEnding(outcomes, attempt + 1, retries);
        assert outcomes(attempt + 1 - 1 + rest.calls - 1) == outcomes(attempt - 1 + (rest.calls + 1) - 1);
      } else {
        assert rest == RetryRun(Fetched([]), 0, []);
      }
    }
  }

  /** `_request_with_retry` makes at most `retries` calls, and at least one when `retries >= 1`. */
  lemma RetryCallBound(outcomes: nat -> Outcome, retries: int)
    ensures var run := RetrySpec(outcomes, retries);
            && run.calls <= (if retries < 0 then 0 else retries)
            && (run.calls == 0 <==> retries < 1)
  {
    RetryFromShape(outcomes, 1, retries);
  }

  /** The i-th sleep lasts `2 ** (i + 1)` seconds, and only retryable failures are retried. */
  lemma RetryBackoffSchedule(outcomes: nat -> Outcome, retries: int)
    ensures var run := RetrySpec(outcomes, retries);
            && |run.sleeps| <= run.calls
            && (forall i :: 0 <= i < |run.sleeps| ==> run.sleeps[i] == Pow2(i + 1))
            && (forall i :: 0 <= i < run.calls - 1 ==> Retryable(outcomes(i)))
  {
    RetryFromShape(outcomes, 1, retries);
  }

  /**
   * How `_request_with_retry` ends: returning the data of its last call; raising that call's
   * non-429 HTTP error; re-raising a network error on call number `retries`, with no sleep
   * after it; or returning `[]` when call number `retries` was a 429, after sleeping for it.
   */
  lemma RetryEnding(outcomes: nat -> Outcome, retries: int)
    requires retries >= 1
    ensures var run := RetrySpec(outcomes, retries);
            var last := outcomes(run.calls - 1);
            && run.calls >= 1
            && (run.reply.Fetched? && last.Success? ==> run.reply.data == last.data && |run.sleeps| == run.calls - 1)
            && (run.reply.Fetched? && !last.Success? ==>
                  run.reply.data == [] && last == HttpError(RateLimited) && run.calls == retries && |run.sleeps| == retries)
            && (run.reply == Raised(ConnectionFailed) ==>
                  last.NetworkError? && run.calls == retries && |run.sleeps| == retries - 1)
            && (run.reply.Raised? && run.reply.error.HttpFailed? ==>
                  last == HttpError(run.reply.error.status) && run.reply.error.status != RateLimited
                  && |run.sleeps| == run.calls - 1)
  {
    RetryFromEnding(outcomes, 1, retries);
    var run := RetrySpec(outcomes, retries);
    assert outcomes(1 - 1 + run.calls - 1) == outcomes(run.calls - 1);
  }

  /** With no attempts at all, the loop body never runs and `[]` comes back. */
  lemma RetryNoAttempts(outcomes: nat -> Outcome, retries: int)
    requires retries < 1
    ensures RetrySpec(outcomes, retries) == RetryRun(Fetched([]), 0, [])
  {
  }

  /** A first call that succeeds is the only call, with no sleep. */
  lemma RetryImmediateSuccess(outcomes: nat -> Outcome, retries: int)
    requires retries >= 1 && outcomes(0).Success?
    ensures RetrySpec(outcomes, retries) == RetryRun(Fetched(outcomes(0).data), 1, [])
  {
  }

  /** A non-429 HTTP error is raised after that single call. */
  lemma RetryNonRetryableStatus(outcomes: nat -> Outcome, retries: int)
    requires retries >= 1 && outcomes(0).HttpError? && outcomes(0).status != RateLimited
    ensures RetrySpec(outcomes, retries) == RetryRun(Raised(HttpFailed(outcomes(0).status)), 1, [])
  {
  }

  /** One network failure or 429, then success, with three attempts: two calls and one sleep of 2 s. */
  lemma RetryOneFailureThenSuccess(outcomes: nat -> Outcome)
    requires Retryable(outcomes(0)) && outcomes(1).Success?
    ensures RetrySpec(outcomes, 3) == RetryRun(Fetched(outcomes(1).data), 2, [2])
  {
    assert Backoff(1) == 2;
  }

  /** Two failures of either retryable kind, then success: sleeps of 2 s and 4 s. */
  lemma RetryTwoFailuresThenSuccess(outcomes: nat -> Outcome)
    requires Retryable(outcomes(0)) && Retryable(outcomes(1)) && outcomes(2).Success?
    ensures RetrySpec(outcomes, 3) == RetryRun(Fetched(outcomes(2).data), 3, [2, 4])
  {
    assert Backoff(1) == 2 && Backoff(2) == 4;
  }

  /** Persistent network errors with two attempts: exactly two calls, then the error is raised. */
  lemma RetryPersistentNetworkFailure(outcomes: nat -> Outcome)
    requires forall i :: outcomes(i) == NetworkError
    ensures RetrySpec(outcomes, 2) == RetryRun(Raised(ConnectionFailed), 2, [2])
  {
    assert outcomes(0) == NetworkError && outcomes(1) == NetworkError;
    assert Backoff(1) == 2;
  }

  /**
   * Persistent rate limiting exhausts every attempt, sleeping after each, and then returns an
   * empty page instead of raising.
   */
  lemma {:induction false} RetryPersistentRateLimit(outcomes: nat -> Outcome, attempt: nat, retries: int)
    requires 1 <= attempt
    requires forall i :: outcomes(i) == HttpError(RateLimited)
    ensures var run := RetryFrom(outcomes, attempt, retries);
            && run.reply == Fetched([])
            && run.calls == Remaining(attempt, retries)
            && run.sleeps == seq(Remaining(attempt, retries), i requires 0 <= i => Backoff(attempt + i))
    decreases retries - attempt
  {
    if attempt <= retries {
      assert outcomes(attempt - 1) == HttpError(RateLimited);
      RetryPersistentRateLimit(outcomes, attempt + 1, retries);
      var rest := RetryFrom(outcomes, attempt + 1, retries);
      assert [Backoff(attempt)] + rest.sleeps == seq(Remaining(attempt, retries), i requires 0 <= i => Backoff(attempt + i));
    }
  }

  /** A 429 on the final attempt makes `_request_with_retry` return `[]` (its last line). */
  lemma RetryRateLimitedOnLastAttempt(outcomes: nat -> Outcome, retries: int)
    requires retries >= 1
    requires forall i :: 0 <= i < retries - 1 ==> Retryable(outcomes(i))
    requires outcomes(retries - 1) == HttpError(RateLimited)
    ensures RetrySpec(outcomes, retries).reply == Fetched([])
    ensures RetrySpec(outcomes, retries).calls == retries
  {
    RetryRateLimitedTail(outcomes, 1, retries);
  }

  lemma {:induction false} RetryRateLimitedTail(outcomes: nat -> Outcome, attempt: nat, retries: int)
    requires 1 <= attempt <= retries
    requires forall i :: attempt - 1 <= i < retries - 1 ==> Retryable(outcomes(i))
    requires outcomes(retries - 1) == HttpError(RateLimited)
    ensures RetryFrom(outcomes, attempt, retries).reply == Fetched([])
    ensures RetryFrom(outcomes, attempt, retries).calls == retries - attempt + 1
    decreases retries - attempt
  {
    if attempt < retries {
      assert Retryable(outcomes(attempt - 1));
      RetryRateLimitedTail(outcomes, attempt + 1, retries);
    }
  }
}
