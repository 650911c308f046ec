/**
 * The retry policy of `rimraf` (build/lib/util.js, lines 234-249). The
 * deletion itself is abstract: `attempt(n)` is what the n-th call of the
 * underlying remover (counting from 0) reports.
 */
module Rimraf {

  datatype Outcome = Removed | Failed(code: string)

  /** Attempts allowed in total: the counter `retries` must stay below this after its increment. */
  const MaxAttempts: nat := 5

  /** The first call that does not report `ENOTEMPTY`, if one comes within the first `MaxAttempts` calls. */
  function FirstSettled(attempt: nat -> Outcome, from: nat): (n: nat)
    requires from <= MaxAttempts
    ensures from <= n <= MaxAttempts
    ensures forall m :: from <= m < n ==> attempt(m) == Failed("ENOTEMPTY")
    ensures n < MaxAttempts ==> attempt(n) != Failed("ENOTEMPTY")
    decreases MaxAttempts - from
  {
    if from == MaxAttempts || attempt(from) != Failed("ENOTEMPTY") then from
    else FirstSettled(attempt, from + 1)
  }

  /**
   * Calls the remover until it succeeds, fails with anything but `ENOTEMPTY`,
   * or has failed with `ENOTEMPTY` `MaxAttempts` times; reports the last
   * outcome and how many calls were made.
   */
  method RemoveWithRetries(attempt: nat -> Outcome) returns (r: Outcome, attempts: nat)
    ensures 1 <= attempts <= MaxAttempts
    ensures r == attempt(attempts - 1)
    ensures forall n :: 0 <= n < attempts - 1 ==> attempt(n) == Failed("ENOTEMPTY")
    ensures r == Failed("ENOTEMPTY") ==> attempts == MaxAttempts
    ensures attempts == if FirstSettled(attempt, 0) < MaxAttempts then FirstSettled(attempt, 0) + 1 else MaxAttempts
  {
    var retries := 0;
    r := attempt(0);
    attempts := 1;
    while r == Failed("ENOTEMPTY") && retries + 1 < MaxAttempts
      invariant 1 <= attempts <= MaxAttempts
      invariant retries == attempts - 1
      invariant r == attempt(attempts - 1)
      invariant forall n :: 0 <= n < attempts - 1 ==> attempt(n) == Failed("ENOTEMPTY")
      decreases MaxAttempts - attempts
    {
      retries := retries + 1;
      r := attempt(attempts);
      attempts := attempts + 1;
    }
  }
}
