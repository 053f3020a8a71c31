/** Bounded retry with exponential backoff around every database call of the location importer. */
module Retry {
  import opened Wrappers

  const MAX_RETRY_ATTEMPTS := 6
  const RETRY_BASE_DELAY_MS := 2000

  /** What one call of the wrapped function does. */
  datatype Attempt<T> = Returns(value: T) | Transient(code: int) | Permanent(code: int)

  datatype Run<T> = Run(result: Result<T, Attempt<T>>, calls: nat, slept: nat)

  function Pow2(k: nat): nat {
    if k == 0 then 1 else 2 * Pow2(k - 1)
  }

  lemma BackoffBounded(k: nat)
    requires k <= MAX_RETRY_ATTEMPTS
    ensures 1 <= Pow2(k) <= 64
  {
    assert Pow2(1) == 2 && Pow2(2) == 4 && Pow2(3) == 8 && Pow2(4) == 16 && Pow2(5) == 32 && Pow2(6) == 64;
  }

  /** Runs of the loop: attempts(i) is what the i-th call would do, counted from 0. */
  method WithRetry<T>(attempts: nat -> Attempt<T>) returns (r: Run<T>)
    ensures 1 <= r.calls <= MAX_RETRY_ATTEMPTS + 1
    ensures forall i :: 0 <= i < r.calls - 1 ==> attempts(i).Transient?
    ensures var last := attempts(r.calls - 1);
            match last
            case Returns(v) => r.result == Ok(v)
            case Permanent(_) => r.result == Err(last)
            case Transient(_) => r.result == Err(last) && r.calls == MAX_RETRY_ATTEMPTS + 1
    ensures r.slept == RETRY_BASE_DELAY_MS * (Pow2(r.calls - 1) - 1) <= 126_000
  {
    var attempt := 0;
    var slept := 0;
    while true
      invariant 0 <= attempt <= MAX_RETRY_ATTEMPTS
      invariant forall i :: 0 <= i < attempt ==> attempts(i).Transient?
      invariant slept == RETRY_BASE_DELAY_MS * (Pow2(attempt) - 1)
      decreases MAX_RETRY_ATTEMPTS - attempt
    {
      BackoffBounded(attempt);
      var outcome := attempts(attempt);
      if outcome.Returns? {
        return Run(Ok(outcome.value), attempt + 1, slept);
      }
      attempt := attempt + 1;
      if outcome.Permanent? || attempt > MAX_RETRY_ATTEMPTS {
        return Run(Err(outcome), attempt, slept);
      }
      slept := slept + RETRY_BASE_DELAY_MS * Pow2(attempt - 1);
    }
  }
}
