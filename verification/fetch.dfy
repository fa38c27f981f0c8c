/** The retry loop of `fetch_league_data` (vb-signups.py:20-30) over an
    abstract sequence of request outcomes: the HTTP call, its timeout and
    the JSON decoding are the environment's, and the sleeps are returned as
    the delays the loop asks for. */
module Fetch {
  import opened Wrappers

  /** What the request of one attempt yields: the decoded body, or one of
      the `requests.RequestException`s the loop catches. */
  datatype Response<T> = Ok(body: T) | Failed

  function Pow2(k: nat): (p: nat)
    ensures p >= 1
  {
    if k == 0 then 1 else 2 * Pow2(k - 1)
  }

  /** The delay after failed attempt `k`: the base delay, doubled at
      every further attempt. */
  function Backoff(delay: nat, k: nat): nat
  {
    if k == 0 then delay else 2 * Backoff(delay, k - 1)
  }

  /** The delays slept after the first `n` failed attempts, in order. */
  function Schedule(delay: nat, n: nat): (s: seq<nat>)
    ensures |s| == n
  {
    if n == 0 then [] else Schedule(delay, n - 1) + [Backoff(delay, n - 1)]
  }

  function Sum(s: seq<nat>): nat
  {
    if |s| == 0 then 0 else Sum(s[..|s| - 1]) + s[|s| - 1]
  }

  /** Doubling at every attempt is the source's `delay * 2 ** k`. */
  lemma {:induction false} BackoffIsPower(delay: nat, k: nat)
    ensures Backoff(delay, k) == delay * Pow2(k)
  {
    if k > 0 {
      BackoffIsPower(delay, k - 1);
      assert delay * Pow2(k) == 2 * (delay * Pow2(k - 1));
    }
  }

  /** Attempt `k` (counting from 0) is followed by a sleep of `delay * 2^k`. */
  lemma {:induction false} ScheduleDelays(delay: nat, n: nat)
    ensures forall k :: 0 <= k < n ==> Schedule(delay, n)[k] == delay * Pow2(k)
  {
    if n > 0 {
      ScheduleDelays(delay, n - 1);
      BackoffIsPower(delay, n - 1);
      assert forall k :: 0 <= k < n - 1 ==> Schedule(delay, n)[k] == Schedule(delay, n - 1)[k];
    }
  }

  /** The sleeps after `n` failures add up to one delay short of the next
      one: `delay * (2^n - 1)`. */
  lemma {:induction false} TotalBackoff(delay: nat, n: nat)
    ensures Sum(Schedule(delay, n)) + delay == Backoff(delay, n)
    ensures Sum(Schedule(delay, n)) == delay * (Pow2(n) - 1)
  {
    if n > 0 {
      TotalBackoff(delay, n - 1);
      var s := Schedule(delay, n);
      assert s[..n - 1] == Schedule(delay, n - 1);
    }
    BackoffIsPower(delay, n);
    assert delay * (Pow2(n) - 1) == delay * Pow2(n) - delay;
  }

  /** With the shipped three attempts, a cycle that fails throughout sleeps
      `7 * RETRY_DELAY` seconds in all. */
  lemma ThreeFailuresBackoff(delay: nat)
    ensures Schedule(delay, 3) == [delay, 2 * delay, 4 * delay]
    ensures Sum(Schedule(delay, 3)) == 7 * delay
  {
    TotalBackoff(delay, 3);
    ScheduleDelays(delay, 3);
  }

  /** `fetch_league_data()`: `respond(k)` is what attempt `k` gets back.
      Returns the body of the first successful attempt, or None after
      `attempts` failures, with the number of requests made and the delays
      slept. */
  method FetchLeagueData<T>(respond: nat -> Response<T>, attempts: nat, delay: nat)
    returns (result: Option<T>, requests: nat, sleeps: seq<nat>)
    ensures requests <= attempts
    ensures result.Some? <==> exists k :: 0 <= k < attempts && respond(k).Ok?
    ensures result.Some? ==> 1 <= requests && respond(requests - 1) == Ok(result.value)
    ensures forall k :: 0 <= k < |sleeps| ==> respond(k).Failed?
    ensures result.None? ==> requests == attempts && |sleeps| == attempts
    ensures |sleeps| == if result.Some? then requests - 1 else requests
    ensures forall k :: 0 <= k < |sleeps| ==> sleeps[k] == delay * Pow2(k)
  {
    result, requests, sleeps := None, 0, [];
    var attempt := 0;
    while attempt < attempts
      invariant attempt <= attempts
      invariant requests == attempt
      invariant sleeps == Schedule(delay, attempt)
      invariant forall k :: 0 <= k < attempt ==> respond(k).Failed?
    {
      requests := requests + 1;
      match respond(attempt)
      case Ok(body) =>
        ScheduleDelays(delay, attempt);
        result := Some(body);
        return;
      case Failed =>
        BackoffIsPower(delay, attempt);
        sleeps := sleeps + [delay * Pow2(attempt)];
        attempt := attempt + 1;
    }
    ScheduleDelays(delay, attempt);
  }
}
