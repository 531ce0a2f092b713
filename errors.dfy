/** The exceptions the agenda service raises, and the fail-fast validation
    fold that the service's `forEach` loops perform. */
module Errors {

  /** A Java reference that may be `null`. */
  datatype Option<T> = None | Some(value: T)

  /** Why a `ValidationException` was raised (the message it carries). */
  datatype Reason =
    | MinuteNotZero      // a slot start or end is not on minute 00
    | StartAfterEnd      // a slot starts after it ends
    | AlreadyExists      // an identical agenda is already stored
    | PeriodTooLong      // a search window spans more than five whole days

  /** The exception classes that can escape the core.  `NullPointer` is the
      unchecked exception the JDK raises when a missing period bound is
      converted to an offset date-time. */
  datatype Error =
    | IllegalArgument
    | Validation(reason: Reason)
    | NotFound
    | NullPointer

  /** A check that either passes or throws. */
  datatype Outcome = Pass | Fail(error: Error)

  /** A computation that returns a value or throws. */
  datatype Result<T> = Ok(value: T) | Err(error: Error)

  /** Running a sequence of checks in order and stopping at the first one that
      throws: the effect of `list.forEach(x -> validate(x))`. */
  function FirstFailure(checks: seq<Outcome>): Outcome
  {
    if checks == [] then Pass
    else if checks[0].Fail? then checks[0]
    else FirstFailure(checks[1..])
  }

  /** The fold passes exactly when every check passes. */
  lemma {:induction false} FirstFailurePassesIffAll(checks: seq<Outcome>)
    ensures FirstFailure(checks).Pass? <==> forall i :: 0 <= i < |checks| ==> checks[i].Pass?
  {
    if checks != [] {
      FirstFailurePassesIffAll(checks[1..]);
      if checks[0].Pass? {
        forall i | 0 < i < |checks| ensures checks[i] == checks[1..][i - 1] { }
      }
    }
  }

  /** When check `k` is the first that throws, the fold throws its error. */
  lemma {:induction false} FirstFailureIsFirst(checks: seq<Outcome>, k: nat)
    requires k < |checks| && checks[k].Fail?
    requires forall j :: 0 <= j < k ==> checks[j].Pass?
    ensures FirstFailure(checks) == checks[k]
  {
    if k > 0 {
      FirstFailureIsFirst(checks[1..], k - 1);
    }
  }

  /** Whatever the fold throws is thrown by some check, all of whose
      predecessors passed. */
  lemma {:induction false} FirstFailureHasWitness(checks: seq<Outcome>)
    requires FirstFailure(checks).Fail?
    ensures exists k :: 0 <= k < |checks| && checks[k] == FirstFailure(checks) &&
                        forall j :: 0 <= j < k ==> checks[j].Pass?
  {
    if checks[0].Pass? {
      FirstFailureHasWitness(checks[1..]);
      var k :| 0 <= k < |checks[1..]| && checks[1..][k] == FirstFailure(checks[1..]) &&
               forall j :: 0 <= j < k ==> checks[1..][j].Pass?;
      assert checks[k + 1] == FirstFailure(checks);
      forall j | 0 <= j < k + 1 ensures checks[j].Pass? {
        if j > 0 { assert checks[j] == checks[1..][j - 1]; }
      }
    } else {
      assert checks[0] == FirstFailure(checks);
    }
  }
}
