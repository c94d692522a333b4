/** `fetchWithExponentialBackoff_`: up to `retry_count` calls of `UrlFetchApp.fetch`,
    retrying after an exception, HTTP 429 or a 5xx status, with a sleep that doubles
    after every failed attempt. The network is the function `respond`, which gives the
    outcome of the i-th call (0-based); the sleeps are recorded instead of taken. */
module Backoff {
  import opened Wrappers
  import opened Numbers

  /** What `UrlFetchApp.fetch` returns when HTTP errors are muted. */
  datatype Response = Response(code: int, body: string)

  /** One call of `UrlFetchApp.fetch`: it throws, or it answers. */
  datatype Outcome = Threw | Answered(response: Response)

  predicate IsSuccess(code: int)
  {
    200 <= code < 300
  }

  /** The statuses the loop retries on: 429 and every 5xx. */
  predicate IsTransient(code: int)
  {
    code == 429 || 500 <= code < 600
  }

  /** An outcome after which the loop tries again when it has attempts left. */
  predicate Retriable(o: Outcome)
  {
    o.Threw? || IsTransient(o.response.code)
  }

  /** `Math.max(1, Number(retry_count) || 1)` for an integer count. */
  function Attempts(retryCount: int): nat
  {
    AtLeastOne(retryCount)
  }

  /** `Math.max(0.1, Number(backoff_factor) || 1.0)` seconds, in milliseconds: zero
      falls back to one second, and anything below 100 ms is raised to 100 ms. */
  function FactorMs(backoffMs: int): (f: nat)
    ensures f >= 100
    ensures backoffMs >= 100 ==> f == backoffMs
  {
    if backoffMs == 0 then 1000 else if backoffMs < 100 then 100 else backoffMs
  }

  function Pow2(k: nat): (p: nat)
    ensures p >= 1
  {
    if k == 0 then 1 else 2 * Pow2(k - 1)
  }

  /** The sleep after failed attempt `attempt` (1-based): `factor * 2^(attempt-1)` ms. */
  function Delay(factor: nat, attempt: nat): nat
    requires attempt >= 1
  {
    factor * Pow2(attempt - 1)
  }

  /** What the loop does from some attempt on: its result (`None` stands for `null`),
      how many calls it makes, and the sleeps between them. */
  datatype Trace = Trace(result: Option<Response>, calls: nat, delays: seq<nat>)

  /** One more failed call and its sleep in front of the rest of a run. */
  function Retried(rest: Trace, delay: nat): Trace
  {
    Trace(rest.result, rest.calls + 1, [delay] + rest.delays)
  }

  /** The loop body at attempt `attempt` of `attempts`, and the attempts after it. */
  function RunFrom(respond: nat -> Outcome, attempts: nat, factor: nat, attempt: nat): Trace
    requires 1 <= attempt <= attempts
    decreases attempts - attempt
  {
    match respond(attempt - 1)
    case Answered(res) =>
      if IsSuccess(res.code) then Trace(Some(res), 1, [])
      else if attempt < attempts && IsTransient(res.code) then
        Retried(RunFrom(respond, attempts, factor, attempt + 1), Delay(factor, attempt))
      else Trace(Some(res), 1, [])
    case Threw =>
      if attempt < attempts then
        Retried(RunFrom(respond, attempts, factor, attempt + 1), Delay(factor, attempt))
      else Trace(None, 1, [])
  }

  /** A whole call of `fetchWithExponentialBackoff_`. */
  function Fetch(respond: nat -> Outcome, retryCount: int, backoffMs: int): Trace
  {
    RunFrom(respond, Attempts(retryCount), FactorMs(backoffMs), 1)
  }

  /** The loop of lines 219-247. `calls` counts the calls of `UrlFetchApp.fetch` and
      `delays` logs the arguments of `Utilities.sleep`. */
  method FetchWithBackoff(respond: nat -> Outcome, retryCount: int, backoffMs: int)
    returns (res: Option<Response>, ghost calls: nat, ghost delays: seq<nat>)
    ensures res == Fetch(respond, retryCount, backoffMs).result
    ensures Trace(res, calls, delays) == Fetch(respond, retryCount, backoffMs)
  {
    var attempts := Attempts(retryCount);
    var factor := FactorMs(backoffMs);
    ghost var whole := Fetch(respond, retryCount, backoffMs);
    calls, delays := 0, [];
    var attempt := 1;
    while attempt <= attempts
      invariant 1 <= attempt <= attempts
      invariant calls == attempt - 1
      invariant var rest := RunFrom(respond, attempts, factor, attempt);
        whole == Trace(rest.result, calls + rest.calls, delays + rest.delays)
      decreases attempts - attempt
    {
      var outcome := respond(attempt - 1);
      calls := calls + 1;
      match outcome {
        case Answered(r) =>
          if IsSuccess(r.code) {
            return Some(r), calls, delays;
          }
          if attempt < attempts && IsTransient(r.code) {
            var delay := Delay(factor, attempt);
            RetryStep(respond, attempts, factor, attempt, calls - 1, delays, whole);
            delays := delays + [delay];
            attempt := attempt + 1;
            continue;
          }
          return Some(r), calls, delays;
        case Threw =>
          if attempt < attempts {
            var delay := Delay(factor, attempt);
            RetryStep(respond, attempts, factor, attempt, calls - 1, delays, whole);
            delays := delays + [delay];
            attempt := attempt + 1;
            continue;
          }
          return None, calls, delays;
      }
    }
    // The trailing `return null` of line 247: every path through the last attempt
    // has already returned.
    assert false;
  }

  /** After a failure that is retried, the rest of the run is the run from the next
      attempt, one call and one sleep later. */
  lemma RetryStep(respond: nat -> Outcome, attempts: nat, factor: nat, attempt: nat,
                  calls: nat, delays: seq<nat>, whole: Trace)
    requires 1 <= attempt < attempts && Retriable(respond(attempt - 1))
    requires var rest := RunFrom(respond, attempts, factor, attempt);
      whole == Trace(rest.result, calls + rest.calls, delays + rest.delays)
    ensures var rest := RunFrom(respond, attempts, factor, attempt + 1);
      whole == Trace(rest.result, calls + 1 + rest.calls, delays + [Delay(factor, attempt)] + rest.delays)
  {
    var next := RunFrom(respond, attempts, factor, attempt + 1);
    assert RunFrom(respond, attempts, factor, attempt) == Retried(next, Delay(factor, attempt));
    assert delays + ([Delay(factor, attempt)] + next.delays) == delays + [Delay(factor, attempt)] + next.delays;
  }

  /** From attempt `a`: at least one and at most `attempts - a + 1` calls, one sleep
      between two consecutive calls, and the sleep after attempt `a + i` is
      `Delay(factor, a + i)`. */
  lemma {:induction false} RunFromShape(respond: nat -> Outcome, attempts: nat, factor: nat, a: nat)
    requires 1 <= a <= attempts
    ensures var t := RunFrom(respond, attempts, factor, a);
      && 1 <= t.calls <= attempts - a + 1
      && |t.delays| == t.calls - 1
      && forall i :: 0 <= i < |t.delays| ==> t.delays[i] == Delay(factor, a + i)
    decreases attempts - a
  {
    var t := RunFrom(respond, attempts, factor, a);
    if t.calls > 1 {
      RunFromShape(respond, attempts, factor, a + 1);
      var rest := RunFrom(respond, attempts, factor, a + 1);
      assert t == Retried(rest, Delay(factor, a));
      forall i | 1 <= i < |t.delays| ensures t.delays[i] == Delay(factor, a + i) {
        assert t.delays[i] == rest.delays[i - 1];
      }
    }
  }

  /** Every call but the last was followed by a retry, and the loop retries only
      after an exception, 429 or a 5xx. Call `j` (0-based) is attempt `j + 1`. */
  lemma {:induction false} RunFromRetriesOnlyOnTransient(respond: nat -> Outcome, attempts: nat, factor: nat, a: nat)
    requires 1 <= a <= attempts
    ensures var t := RunFrom(respond, attempts, factor, a);
      forall j :: a - 1 <= j < a + t.calls - 2 ==> Retriable(respond(j))
    decreases attempts - a
  {
    var t := RunFrom(respond, attempts, factor, a);
    if t.calls > 1 {
      var rest := RunFrom(respond, attempts, factor, a + 1);
      RunFromRetriesOnlyOnTransient(respond, attempts, factor, a + 1);
      match respond(a - 1)
      case Threw =>
      case Answered(res) =>
        assert !IsSuccess(res.code) && IsTransient(res.code);
    }
  }

  /** How the last call decides the result: an exception gives `None` and happens
      only on the last attempt; a response is returned as it is, and it is a success,
      a status the loop does not retry, or the answer to the last attempt. */
  lemma {:induction false} RunFromLastCall(respond: nat -> Outcome, attempts: nat, factor: nat, a: nat)
    requires 1 <= a <= attempts
    ensures var t := RunFrom(respond, attempts, factor, a);
      var last := respond(a - 1 + t.calls - 1);
      var lastAttempt := a + t.calls - 1;
      && (last.Threw? ==> t.result == None && lastAttempt == attempts)
      && (last.Answered? ==>
            && t.result == Some(last.response)
            && (IsSuccess(last.response.code) || !IsTransient(last.response.code) || lastAttempt == attempts))
    decreases attempts - a
  {
    var t := RunFrom(respond, attempts, factor, a);
    RunFromShape(respond, attempts, factor, a);
    if t.calls > 1 {
      RunFromLastCall(respond, attempts, factor, a + 1);
      var rest := RunFrom(respond, attempts, factor, a + 1);
      assert t == Retried(rest, Delay(factor, a));
      assert a - 1 + t.calls - 1 == (a + 1) - 1 + rest.calls - 1;
    }
  }

  /** Lines 216-230: never more calls than `max(1, retry_count)`, and the sleep before
      attempt i + 1 is `factor * 2^(i-1)`, each one double the one before. */
  lemma AttemptBoundAndDelays(respond: nat -> Outcome, retryCount: int, backoffMs: int)
    ensures var t := Fetch(respond, retryCount, backoffMs);
      && 1 <= t.calls <= Attempts(retryCount)
      && |t.delays| == t.calls - 1
      && (forall i :: 0 <= i < |t.delays| ==> t.delays[i] == FactorMs(backoffMs) * Pow2(i))
      && (forall i :: 0 < i < |t.delays| ==> t.delays[i] == 2 * t.delays[i - 1])
  {
    var t := Fetch(respond, retryCount, backoffMs);
    RunFromShape(respond, Attempts(retryCount), FactorMs(backoffMs), 1);
    forall i | 0 < i < |t.delays| ensures t.delays[i] == 2 * t.delays[i - 1] {
      assert Pow2(i) == 2 * Pow2(i - 1);
    }
  }

  /** Lines 224-247, whole calls: every call before the last was an exception, a 429
      or a 5xx; an exception on the last call gives `null` after exactly
      `max(1, retry_count)` calls; a response on the last call is returned unchanged,
      and it is a 2xx, a status that is not retried, or the answer to the last attempt. */
  lemma FetchDecision(respond: nat -> Outcome, retryCount: int, backoffMs: int)
    ensures var t := Fetch(respond, retryCount, backoffMs);
      var last := respond(t.calls - 1);
      && (forall j :: 0 <= j < t.calls - 1 ==> Retriable(respond(j)))
      && (last.Threw? ==> t.result == None && t.calls == Attempts(retryCount))
      && (last.Answered? ==>
            && t.result == Some(last.response)
            && (IsSuccess(last.response.code) || !IsTransient(last.response.code)
                || t.calls == Attempts(retryCount)))
  {
    var attempts, factor := Attempts(retryCount), FactorMs(backoffMs);
    RunFromRetriesOnlyOnTransient(respond, attempts, factor, 1);
    RunFromLastCall(respond, attempts, factor, 1);
  }

  /** Line 224: when call k answers 2xx and every call before it failed in a way that is
      retried, that response is returned at once, after exactly k + 1 calls. */
  lemma FirstSuccessReturned(respond: nat -> Outcome, retryCount: int, backoffMs: int, k: nat)
    requires k < Attempts(retryCount)
    requires respond(k).Answered? && IsSuccess(respond(k).response.code)
    requires forall i :: 0 <= i < k ==> Retriable(respond(i))
    ensures Fetch(respond, retryCount, backoffMs).result == Some(respond(k).response)
    ensures Fetch(respond, retryCount, backoffMs).calls == k + 1
  {
    FetchDecision(respond, retryCount, backoffMs);
    AttemptBoundAndDelays(respond, retryCount, backoffMs);
  }

  /** When every call throws, the loop makes exactly `max(1, retry_count)` calls and
      returns `null`. */
  lemma AllExceptionsGiveNull(respond: nat -> Outcome, retryCount: int, backoffMs: int)
    requires forall i :: respond(i) == Threw
    ensures Fetch(respond, retryCount, backoffMs).result == None
    ensures Fetch(respond, retryCount, backoffMs).calls == Attempts(retryCount)
  {
    var t := Fetch(respond, retryCount, backoffMs);
    FetchDecision(respond, retryCount, backoffMs);
    assert respond(t.calls - 1).Threw?;
  }

  function Sum(xs: seq<nat>): nat
  {
    if xs == [] then 0 else xs[0] + Sum(xs[1..])
  }

  /** A run shaped as `AttemptBoundAndDelays` shows every run to be sleeps
      `factor * (2^(calls-1) - 1)` in all, so no run sleeps longer than
      `factor * (2^(attempts-1) - 1)`. */
  lemma TotalDelayBound(t: Trace, factor: nat, attempts: nat)
    requires 1 <= t.calls <= attempts && |t.delays| == t.calls - 1
    requires forall i :: 0 <= i < |t.delays| ==> t.delays[i] == factor * Pow2(i)
    ensures Sum(t.delays) == factor * (Pow2(t.calls - 1) - 1)
    ensures Sum(t.delays) <= factor * (Pow2(attempts - 1) - 1)
  {
    SleepTotal(t.delays, factor, t.calls);
    SleepTotalBound(Sum(t.delays), factor, t.calls, attempts);
  }

  /** The doubling sleeps between `calls` calls add up to `f * (2^(calls-1) - 1)`. */
  lemma SleepTotal(ds: seq<nat>, f: nat, calls: nat)
    requires 1 <= calls && |ds| == calls - 1
    requires forall i :: 0 <= i < |ds| ==> ds[i] == f * Pow2(i)
    ensures Sum(ds) == f * (Pow2(calls - 1) - 1)
  {
    GeometricSum(ds, f);
  }

  /** That total grows with the number of calls. */
  lemma SleepTotalBound(total: nat, f: nat, calls: nat, attempts: nat)
    requires 1 <= calls <= attempts && total == f * (Pow2(calls - 1) - 1)
    ensures total <= f * (Pow2(attempts - 1) - 1)
  {
    Pow2Monotone(calls - 1, attempts - 1);
    MulMonotone(f, Pow2(calls - 1) - 1, Pow2(attempts - 1) - 1);
  }

  lemma {:induction false} GeometricSum(ds: seq<nat>, f: nat)
    requires forall i :: 0 <= i < |ds| ==> ds[i] == f * Pow2(i)
    ensures Sum(ds) == f * (Pow2(|ds|) - 1)
  {
    if ds != [] {
      var n := |ds| - 1;
      var init := ds[..n];
      GeometricSum(init, f);
      assert init + [ds[n]] == ds;
      SumSnoc(init, ds[n]);
      GeometricStep(f, Pow2(n));
    }
  }

  lemma GeometricStep(f: nat, p: nat)
    requires p >= 1
    ensures f * (p - 1) + f * p == f * (2 * p - 1)
  {
  }

  lemma {:induction false} SumSnoc(xs: seq<nat>, x: nat)
    ensures Sum(xs + [x]) == Sum(xs) + x
  {
    if xs != [] {
      assert (xs + [x])[1..] == xs[1..] + [x];
      SumSnoc(xs[1..], x);
    } else {
      assert xs + [x] == [x];
    }
  }

  lemma {:induction false} Pow2Monotone(j: nat, k: nat)
    requires j <= k
    ensures Pow2(j) <= Pow2(k)
    decreases k
  {
    if j < k {
      Pow2Monotone(j, k - 1);
    }
  }

  lemma MulMonotone(f: nat, x: nat, y: nat)
    requires x <= y
    ensures f * x <= f * y
  {
  }
}
