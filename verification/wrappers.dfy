/** Failure-compatible result types shared by every module of the model. */
module Wrappers {

  /** A value that may be absent, like a Python name that was never bound. */
  datatype Option<+T> = None | Some(value: T)

  /** The outcome of a step that either produces a value or raises. */
  datatype Result<+T, +E> = Ok(value: T) | Fail(error: E) {

    predicate IsFailure() {
      Fail?
    }

    function PropagateFailure<U>(): Result<U, E>
      requires Fail?
    {
      Fail(error)
    }

    function Extract(): T
      requires Ok?
    {
      value
    }
  }
}
