/**
 * RetrySQLite: runs a database operation up to ten times, retrying while
 * it fails with a non-critical code.  The operation is given as the
 * sequence of what its successive attempts would do.
 */
module SqliteRetry {
  import opened SqliteErrors

  /** What one attempt of the wrapped operation does: return a value or
   *  throw a system_error carrying an SQLite code. */
  datatype Attempt<T> = Success(value: T) | Failure(code: int)

  /** What run() does: return a value, return nullopt, or rethrow a
   *  critical error. */
  datatype RunResult<T> = Returned(value: T) | NoResult | Rethrown(code: int)

  const MAX_RETRIES: nat := 10

  /** An attempt that ends the loop. */
  predicate Decisive<T>(a: Attempt<T>)
  {
    a.Success? || CriticalError(a.code)
  }

  /** The index of the first decisive attempt at or after i among the
   *  first MAX_RETRIES, or MAX_RETRIES when there is none. */
  function FirstDecisive<T>(attempts: seq<Attempt<T>>, i: nat): (k: nat)
    requires |attempts| >= MAX_RETRIES && i <= MAX_RETRIES
    ensures i <= k <= MAX_RETRIES
    ensures k < MAX_RETRIES ==> Decisive(attempts[k])
    ensures forall j :: i <= j < k ==> !Decisive(attempts[j])
    decreases MAX_RETRIES - i
  {
    if i == MAX_RETRIES then MAX_RETRIES
    else if Decisive(attempts[i]) then i
    else FirstDecisive(attempts, i + 1)
  }

  class RetrySqlite<T> {
    var successful: bool
    var retries: int
    /** The last failed attempt's code; 0 is the empty error_code. */
    var failedError: int

    constructor()
      ensures !successful && retries == 0 && failedError == 0
    {
      successful := false;
      retries := 0;
      failedError := 0;
    }

    /**
     * run(): the first success is returned with `successful` set, the
     * attempt index as `retries` and the error cleared; a critical error
     * is rethrown at once and recorded; after ten non-critical failures
     * the result is empty, `successful` is false, `retries` is 9 and the
     * last code is kept.
     */
    method Run(attempts: seq<Attempt<T>>) returns (r: RunResult<T>)
      requires |attempts| >= MAX_RETRIES
      modifies this
      ensures var k := FirstDecisive(attempts, 0);
              (k < MAX_RETRIES && attempts[k].Success? ==>
                 r == Returned(attempts[k].value) && successful && retries == k && failedError == 0)
              && (k < MAX_RETRIES && attempts[k].Failure? ==>
                    r == Rethrown(attempts[k].code) && failedError == attempts[k].code
                    && successful == old(successful) && retries == (if k == 0 then old(retries) else k - 1))
              && (k == MAX_RETRIES ==>
                    r == NoResult && !successful && retries == MAX_RETRIES - 1
                    && failedError == attempts[MAX_RETRIES - 1].code)
    {
      var retry := 0;
      while retry < MAX_RETRIES
        invariant 0 <= retry <= MAX_RETRIES
        invariant FirstDecisive(attempts, retry) == FirstDecisive(attempts, 0)
        invariant successful == old(successful)
        invariant retry == 0 ==> retries == old(retries) && failedError == old(failedError)
        invariant retry > 0 ==> retries == retry - 1 && failedError == attempts[retry - 1].code
      {
        match attempts[retry] {
          case Success(v) =>
            successful := true;
            failedError := 0;
            retries := retry;
            return Returned(v);
          case Failure(code) =>
            if CriticalError(code) {
              failedError := code;
              return Rethrown(code);
            }
            failedError := code;
            retries := retry;
        }
        retry := retry + 1;
      }
      successful := false;
      return NoResult;
    }
  }

  /** A retryable failure followed by a success: the result comes from
   *  the second attempt and one retry is counted. */
  lemma SuccessAfterBusy<T>(attempts: seq<Attempt<T>>, v: T)
    requires |attempts| >= MAX_RETRIES
    requires attempts[0] == Failure(SQLITE_BUSY) && attempts[1] == Success(v)
    ensures FirstDecisive(attempts, 0) == 1
  {
    assert !Decisive(attempts[0]);
  }

  /** Ten busy attempts exhaust the retries. */
  lemma AlwaysBusyExhausts<T>(attempts: seq<Attempt<T>>)
    requires |attempts| >= MAX_RETRIES
    requires forall j :: 0 <= j < MAX_RETRIES ==> attempts[j] == Failure(SQLITE_BUSY)
    ensures FirstDecisive(attempts, 0) == MAX_RETRIES
  {
  }

  /** A critical first attempt stops everything. */
  lemma CriticalStopsAtOnce<T>(attempts: seq<Attempt<T>>)
    requires |attempts| >= MAX_RETRIES
    requires attempts[0].Failure? && CriticalError(attempts[0].code)
    ensures FirstDecisive(attempts, 0) == 0
  {
  }
}
