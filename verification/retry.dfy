/**
 * `retry_on_stale`: run a unit of work until it does not raise a stale-element or
 * no-such-element exception, at most `max_retries + 1` times, pausing between attempts.
 *
 * The unit of work is a function from a state to an outcome and a new state; the pause
 * (the `time.sleep(delay)` between attempts) is a function on states. Both are parameters,
 * so the same rule serves every caller (date inputs, toggles, grid extraction).
 */
module Retry {
  import opened Outcomes

  /** `max_retries or CONFIG["max_retries"]`: an absent or zero request falls back to the configured count. */
  function RetryBudget(requested: Option<nat>, configured: nat): (n: nat)
    ensures requested.Some? && requested.value != 0 ==> n == requested.value
    ensures requested.None? || requested.value == 0 ==> n == configured
  {
    match requested
    case Some(k) => if k != 0 then k else configured
    case None => configured
  }

  /** How a retried call ended: its outcome, the state after it, and how many attempts ran. */
  datatype RetryRun<S, T> = RetryRun(outcome: Outcome<T>, state: S, attempts: nat)

  /**
   * The retry rule from attempt number `attempt` on (attempts are numbered from 0): run the
   * work; a transient exception before the last attempt pauses and tries again, anything else
   * (a value, another exception, or a transient exception on the last attempt) is final.
   */
  function Retried<S, T>(work: S -> (Outcome<T>, S), pause: S -> S, s: S, retries: nat, attempt: nat): (r: RetryRun<S, T>)
    requires attempt <= retries
    decreases retries - attempt
    ensures attempt < r.attempts <= retries + 1
    ensures Retryable(r.outcome) ==> r.attempts == retries + 1
  {
    var (o, s') := work(s);
    if Retryable(o) && attempt < retries then Retried(work, pause, pause(s'), retries, attempt + 1)
    else RetryRun(o, s', attempt + 1)
  }

  /** The state in which attempt `k` starts, when every earlier attempt raised a transient exception. */
  function Before<S, T>(work: S -> (Outcome<T>, S), pause: S -> S, s0: S, k: nat): S {
    if k == 0 then s0 else pause(work(Before(work, pause, s0, k - 1)).1)
  }

  /** What attempt `k` returns or raises. */
  function AttemptOutcome<S, T>(work: S -> (Outcome<T>, S), pause: S -> S, s0: S, k: nat): Outcome<T> {
    work(Before(work, pause, s0, k)).0
  }

  lemma {:induction false} RetriedFrom<S, T>(work: S -> (Outcome<T>, S), pause: S -> S, s0: S, retries: nat, attempt: nat)
    requires attempt <= retries
    requires forall k :: 0 <= k < attempt ==> Retryable(AttemptOutcome(work, pause, s0, k))
    decreases retries - attempt
    ensures var r := Retried(work, pause, Before(work, pause, s0, attempt), retries, attempt);
      && (r.outcome, r.state) == work(Before(work, pause, s0, r.attempts - 1))
      && (forall k :: 0 <= k < r.attempts - 1 ==> Retryable(AttemptOutcome(work, pause, s0, k)))
  {
    var s := Before(work, pause, s0, attempt);
    var (o, s') := work(s);
    if Retryable(o) && attempt < retries {
      assert Before(work, pause, s0, attempt + 1) == pause(s');
      assert AttemptOutcome(work, pause, s0, attempt) == o;
      RetriedFrom(work, pause, s0, retries, attempt + 1);
    }
  }

  /**
   * The whole retry contract, stated against the attempts one by one: the call makes between
   * 1 and `retries + 1` attempts; its result (value or exception) and final state are those of
   * its last attempt, unchanged; every earlier attempt raised a stale-element or
   * no-such-element exception; and it stops early exactly when an attempt returns a value or
   * raises anything else. So the first value is returned, other exceptions propagate at once,
   * and the last transient exception is re-raised when the budget runs out.
   */
  lemma RetriedAttempts<S, T>(work: S -> (Outcome<T>, S), pause: S -> S, s0: S, retries: nat)
    ensures var r := Retried(work, pause, s0, retries, 0);
      && 1 <= r.attempts <= retries + 1
      && r.outcome == AttemptOutcome(work, pause, s0, r.attempts - 1)
      && r.state == work(Before(work, pause, s0, r.attempts - 1)).1
      && (forall k :: 0 <= k < r.attempts - 1 ==> Retryable(AttemptOutcome(work, pause, s0, k)))
      && (r.attempts <= retries ==> !Retryable(r.outcome))
  {
    RetriedFrom(work, pause, s0, retries, 0);
  }

  /** A single attempt that does not raise a transient exception is the whole call. */
  lemma RetriedFirstFinal<S, T>(work: S -> (Outcome<T>, S), pause: S -> S, s0: S, retries: nat)
    requires !Retryable(work(s0).0)
    ensures Retried(work, pause, s0, retries, 0) == RetryRun(work(s0).0, work(s0).1, 1)
  {
  }

  /** With a zero budget (after the fallback) the work runs exactly once and is never paused. */
  lemma RetriedNoRetries<S, T>(work: S -> (Outcome<T>, S), pause: S -> S, s0: S)
    ensures Retried(work, pause, s0, 0, 0) == RetryRun(work(s0).0, work(s0).1, 1)
  {
  }

  /** A property of states that every attempt and every pause keeps holds of the state a retried call ends in. */
  lemma {:induction false} RetriedKeeps<S, T>(work: S -> (Outcome<T>, S), pause: S -> S, s: S, retries: nat, attempt: nat, inv: S -> bool)
    requires attempt <= retries
    requires inv(s)
    requires forall x :: inv(x) ==> inv(work(x).1)
    requires forall x :: inv(x) ==> inv(pause(x))
    decreases retries - attempt
    ensures inv(Retried(work, pause, s, retries, attempt).state)
  {
    var (o, s') := work(s);
    if Retryable(o) && attempt < retries {
      RetriedKeeps(work, pause, pause(s'), retries, attempt + 1, inv);
    }
  }

  /** A property that every attempt's result and state have holds of the retried call's result and state. */
  lemma {:induction false} RetriedEnds<S, T>(work: S -> (Outcome<T>, S), pause: S -> S, s: S, retries: nat, attempt: nat,
                                             post: (Outcome<T>, S) -> bool)
    requires attempt <= retries
    requires forall x :: post(work(x).0, work(x).1)
    decreases retries - attempt
    ensures var r := Retried(work, pause, s, retries, attempt); post(r.outcome, r.state)
  {
    var (o, s') := work(s);
    if Retryable(o) && attempt < retries {
      RetriedEnds(work, pause, pause(s'), retries, attempt + 1, post);
    }
  }

  /**
   * The loop of `retry_on_stale` (`for attempt in range(max_retries + 1)`, remembering the last
   * transient exception, sleeping only when another attempt follows). It returns the outcome
   * the retry rule gives, the state after it, the number of attempts and the number of pauses:
   * one fewer than the attempts, since no pause follows the last attempt.
   */
  method RetryOnStale<S, T>(work: S -> (Outcome<T>, S), pause: S -> S, s0: S, requested: Option<nat>, configured: nat)
    returns (outcome: Outcome<T>, s: S, attempts: nat, pauses: nat)
    ensures var r := Retried(work, pause, s0, RetryBudget(requested, configured), 0);
      outcome == r.outcome && s == r.state && attempts == r.attempts
    ensures pauses + 1 == attempts
  {
    var retries := RetryBudget(requested, configured);
    var last: Option<Exn> := None;
    s, attempts, pauses := s0, 0, 0;
    for attempt := 0 to retries + 1
      invariant attempts == attempt
      invariant attempt <= retries ==> pauses == attempt && Retried(work, pause, s0, retries, 0) == Retried(work, pause, s, retries, attempt)
      invariant attempt == retries + 1 ==>
        pauses == retries && last.Some? && Retried(work, pause, s0, retries, 0) == RetryRun(Raised(last.value), s, attempt)
    {
      var (o, s') := work(s);
      attempts := attempts + 1;
      if !Retryable(o) {
        return o, s', attempts, pauses;
      }
      last := Some(o.exn);
      if attempt < retries {
        s := pause(s');
        pauses := pauses + 1;
      } else {
        s := s';
      }
    }
    outcome := Raised(last.value);
  }
}
