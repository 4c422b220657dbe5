/** Failure-compatible result types shared by every module of the model.

    The routing core has no recoverable errors: every violated invariant ends the
    run (`NS_ABORT_MSG`, an uncaught exception, a Python `raise`). The model
    therefore has a single failure shape, `Abort`, carrying a short reason. Reading
    a vector out of range or calling a method through a null arbiter pointer is
    undefined behaviour in the source; the model reports it as an `Abort` as well,
    with a reason that says so, instead of excluding it by a precondition.
 */
module Outcomes {

  datatype Option<+T> = None | Some(value: T) {
    function GetOr(default: T): T {
      match this
      case Some(v) => v
      case None => default
    }
  }

  datatype Outcome<+T> = Ok(value: T) | Abort(reason: string) {

    predicate IsFailure() {
      Abort?
    }

    function PropagateFailure<U>(): Outcome<U>
      requires Abort?
    {
      Abort(reason)
    }

    function Extract(): T
      requires Ok?
    {
      value
    }
  }

  /** Reasons shared across modules, so that contracts can name them. */
  const OUT_OF_RANGE: string := "index out of range (undefined behaviour in the source)"
  const NULL_ARBITER: string := "arbiter lookup returned a null pointer"
}
