/**
 * The bounded retry executor of `src/utils/retry.ts`.
 *
 * The action `fn` is given as a script: `fn(k)` is the outcome of its
 * (k+1)-th call, either a value or a thrown error. The fixed pause after a
 * failed call (`await delay(delayTimes)`) takes no time here; each one is
 * recorded, with its length, in `waits`.
 */
module Retry {
  import opened Wrappers

  /** Attempts made when the caller gives no count. */
  const DefaultAttempts: int := 3
  /** Milliseconds waited after a failed attempt when the caller gives no delay. */
  const DefaultDelayMs: int := 500

  /** How `retry` ends: its promise resolves to `ret`, or it rethrows `error`. */
  datatype Completion<R, E> = Returned(ret: Option<R>) | Threw(error: E)

  /** The first `k` calls of `fn` all throw. */
  ghost predicate FailsBefore<R, E>(fn: nat -> Result<R, E>, k: nat) {
    forall j: nat :: j < k ==> fn(j).Err?
  }

  /**
   * `retry(fn, num, delayTimes)`: calls `fn` until one call returns, at most
   * `num` times, pausing `delayTimes` after each failure but the last, and
   * rethrows the last failure when all `num` calls throw.
   */
  method Retry<R, E>(fn: nat -> Result<R, E>, num: int := DefaultAttempts, delayTimes: int := DefaultDelayMs)
    returns (res: Completion<R, E>, calls: nat, waits: seq<int>)
    // every pause has the configured length
    ensures forall w :: w in waits ==> w == delayTimes
    // no attempts allowed: `fn` is never called and the result is null
    ensures num <= 0 ==> res == Returned(None) && calls == 0 && waits == []
    // otherwise the calls stop at the first success, or at the num-th call
    ensures num > 0 ==> 1 <= calls <= num && FailsBefore(fn, calls - 1)
    ensures num > 0 ==> (res.Threw? <==> FailsBefore(fn, num))
    ensures num > 0 && res.Returned? ==>
      fn(calls - 1).Ok? && res.ret == Some(fn(calls - 1).value) && |waits| == calls - 1
    ensures res.Threw? ==>
      calls == num && res.error == fn(num - 1).error && |waits| == num - 1
  {
    var i := num;
    var ret: Option<R> := None;
    calls, waits := 0, [];
    while i > 0
      invariant num > 0 ==> 1 <= i <= num
      invariant num <= 0 ==> i == num
      invariant calls == num - i
      invariant FailsBefore(fn, calls)
      invariant |waits| == calls && forall w :: w in waits ==> w == delayTimes
      decreases i
    {
      var outcome := fn(calls);
      calls := calls + 1;
      if outcome.Err? {
        i := i - 1;
        if i <= 0 {
          res := Threw(outcome.error);
          return;
        }
        waits := waits + [delayTimes];
        continue;
      }
      ret := Some(outcome.value);
      break;
    }
    res := Returned(ret);
  }

  /**
   * An action that throws `e` on its first `k` calls and returns `v` from then
   * on: `retry` with `n > 0` attempts succeeds exactly when `k < n`, after
   * `min(k + 1, n)` calls, and otherwise rethrows `e`.
   */
  method RetryAfterFailures<R, E>(k: nat, v: R, e: E, n: int, delayTimes: int)
    returns (res: Completion<R, E>, calls: nat)
    requires n > 0
    ensures res.Returned? <==> k < n
    ensures res.Returned? ==> res.ret == Some(v) && calls == k + 1
    ensures res.Threw? ==> res.error == e && calls == n
  {
    var fn: nat -> Result<R, E> := j => if j < k then Err(e) else Ok(v);
    var waits;
    res, calls, waits := Retry(fn, n, delayTimes);
    if k < n {
      assert !FailsBefore(fn, n) by { assert fn(k).Ok?; }
    } else {
      assert FailsBefore(fn, n);
    }
  }
}
