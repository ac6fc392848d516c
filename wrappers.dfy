/** Failure-compatible wrappers shared by the rest of the model. */
module Wrappers {

  /** A value that may be absent, like a nil pointer or a missing map entry in Go. */
  datatype Option<+T> = None | Some(value: T) {
    predicate IsFailure() { None? }

    function PropagateFailure<U>(): Option<U>
      requires None?
    {
      None
    }

    function Extract(): T
      requires Some?
    {
      value
    }
  }

  /** A value or an error, like Go's `(value, error)` return pair. */
  datatype Result<+T, +E> = Success(value: T) | Failure(error: E)

  /** A plain `error` return: nil or an error value. */
  datatype Outcome<+E> = Pass | Fail(error: E)
}
