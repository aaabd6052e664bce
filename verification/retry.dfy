/** The retry wrapper around one call to the extraction service: the call is
    repeated only while it fails with a rate-limit message and retries are
    left, waiting `delay` before the first retry and doubling it each time.
    The operation is an oracle: `op(k)` is what the `k`-th call (from 0)
    returns or throws. Waits are recorded as numbers, not spent. */
module Retry {
  import opened Errors

  datatype Attempt<+T> = Returned(value: T) | Threw(error: Thrown)

  const DefaultRetries: int := 3
  const DefaultDelay: int := 1000

  predicate Retryable<T>(a: Attempt<T>) {
    a.Threw? && IsRateLimited(a.error.message)
  }

  /** The final attempt, the waits made before each retry, and how many
      times the operation was called. */
  datatype Retried<+T> = Retried(result: Attempt<T>, waits: seq<int>, calls: nat)

  /** Retries actually available: `retries > 0` is the test. */
  function Budget(retries: int): nat {
    if retries > 0 then retries else 0
  }

  function Pow2(k: nat): nat {
    if k == 0 then 1 else 2 * Pow2(k - 1)
  }

  /** Prepending the first wait to the doubled schedule of the remaining
      retries gives the schedule `delay * 2^i`. */
  lemma PrependWait(delay: int, rest: seq<int>)
    requires forall i | 0 <= i < |rest| :: rest[i] == (delay * 2) * Pow2(i)
    ensures forall i | 0 <= i < |rest| + 1 :: ([delay] + rest)[i] == delay * Pow2(i)
  {
    forall i | 1 <= i < |rest| + 1 ensures ([delay] + rest)[i] == delay * Pow2(i) {
      assert ([delay] + rest)[i] == rest[i - 1];
      assert (delay * 2) * Pow2(i - 1) == delay * (2 * Pow2(i - 1));
    }
  }

  /** The attempts from call number `start` on, with `retries` retries left. */
  function RetryFrom<T>(op: nat -> Attempt<T>, start: nat, retries: int, delay: int): (r: Retried<T>)
    ensures 1 <= r.calls <= Budget(retries) + 1
    ensures r.result == op(start + r.calls - 1)
    ensures forall j | start <= j < start + r.calls - 1 :: Retryable(op(j))
    ensures !Retryable(r.result) || r.calls == Budget(retries) + 1
    ensures |r.waits| == r.calls - 1
    ensures forall i | 0 <= i < |r.waits| :: r.waits[i] == delay * Pow2(i)
    decreases Budget(retries)
  {
    var first := op(start);
    if retries > 0 && Retryable(first) then
      var rest := RetryFrom(op, start + 1, retries - 1, delay * 2);
      PrependWait(delay, rest.waits);
      Retried(rest.result, [delay] + rest.waits, rest.calls + 1)
    else
      Retried(first, [], 1)
  }

  /** `withRetry(fn, retries, delay)`: the call stops at the first attempt that
      is not a rate-limit failure or when the budget is spent; that attempt
      (value or error, unchanged) is the result, and the `i`-th wait is
      `delay * 2^i`. */
  function WithRetry<T>(op: nat -> Attempt<T>, retries: int, delay: int): (r: Retried<T>)
    ensures 1 <= r.calls <= Budget(retries) + 1
    ensures r.result == op(r.calls - 1)
    ensures forall j | 0 <= j < r.calls - 1 :: Retryable(op(j))
    ensures !Retryable(r.result) || r.calls == Budget(retries) + 1
    ensures |r.waits| == r.calls - 1
    ensures forall i | 0 <= i < |r.waits| :: r.waits[i] == delay * Pow2(i)
  {
    RetryFrom(op, 0, retries, delay)
  }

  /** The first attempt that is not a rate-limit failure, if it comes within
      the budget, is returned as it is (a value, or an error rethrown
      unchanged) after exactly `k` retries. */
  lemma StopsAtFirstNonRetryable<T>(op: nat -> Attempt<T>, retries: int, delay: int, k: nat)
    requires k <= Budget(retries)
    requires forall j | 0 <= j < k :: Retryable(op(j))
    requires !Retryable(op(k))
    ensures WithRetry(op, retries, delay).result == op(k)
    ensures WithRetry(op, retries, delay).calls == k + 1
  {
    var r := WithRetry(op, retries, delay);
  }

  /** When every call in the budget is rate limited, the last one's error is
      rethrown after `Budget(retries)` waits. */
  lemma GivesUpWhenExhausted<T>(op: nat -> Attempt<T>, retries: int, delay: int)
    requires forall j | 0 <= j <= Budget(retries) :: Retryable(op(j))
    ensures WithRetry(op, retries, delay).calls == Budget(retries) + 1
    ensures WithRetry(op, retries, delay).result == op(Budget(retries))
  {
    var r := WithRetry(op, retries, delay);
  }

  /** With the defaults the operation runs at most 4 times and the waits are
      a prefix of 1000, 2000, 4000 ms. */
  lemma DefaultSchedule<T>(op: nat -> Attempt<T>)
    ensures WithRetry(op, DefaultRetries, DefaultDelay).calls <= 4
    ensures var w := WithRetry(op, DefaultRetries, DefaultDelay).waits;
            |w| <= 3 && w == [1000, 2000, 4000][..|w|]
  {
    var w := WithRetry(op, DefaultRetries, DefaultDelay).waits;
    assert Pow2(1) == 2 && Pow2(2) == 4;
    if |w| > 0 { assert w[0] == 1000; }
    if |w| > 1 { assert w[1] == 2000; }
    if |w| > 2 { assert w[2] == 4000; }
  }

  /** Succeeding after `k <= 3` rate-limit failures returns that value after
      the waits 1000, 2000, ... of the first `k` retries. */
  lemma SucceedsAfterRateLimits<T>(op: nat -> Attempt<T>, k: nat)
    requires k <= 3
    requires forall j | 0 <= j < k :: Retryable(op(j))
    requires op(k).Returned?
    ensures WithRetry(op, DefaultRetries, DefaultDelay).result == op(k)
    ensures WithRetry(op, DefaultRetries, DefaultDelay).waits == [1000, 2000, 4000][..k]
  {
    StopsAtFirstNonRetryable(op, DefaultRetries, DefaultDelay, k);
    DefaultSchedule(op);
  }
}
