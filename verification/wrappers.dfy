/** Option and Result, the failure-compatible wrappers the rest of the model
    uses for Python's `None` and for raised exceptions. */
module Wrappers {

  datatype Option<+T> = None | Some(value: T) {

    predicate IsFailure() {
      None?
    }

    function PropagateFailure<U>(): Option<U>
      requires None?
    {
      None
    }

    function Extract(): T
      requires Some?
    {
      value
    }

    function GetOr(default: T): T {
      match this
      case Some(v) => v
      case None => default
    }
  }

  datatype Result<+R, +E> = Success(value: R) | Failure(error: E) {

    predicate IsFailure() {
      Failure?
    }

    function PropagateFailure<U>(): Result<U, E>
      requires Failure?
    {
      Failure(error)
    }

    function Extract(): R
      requires Success?
    {
      value
    }
  }

  /** The exceptions the modelled code can raise. */
  datatype Error =
    | KeyError(what: string)
    | ValueError(what: string)
    | IndexError(what: string)
    | NetworkXError(what: string)
    | RuntimeError(what: string)

  /** The message of the `RuntimeError` Python 3 raises when a dictionary
      grows under a running iteration. */
  const CHANGED_SIZE := "dictionary changed size during iteration"
}
