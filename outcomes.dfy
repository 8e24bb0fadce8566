/** Failure-compatible wrappers used by the scanner and the element view. */
module Outcomes {

  /** A value that may be absent: the model of a nullable pointer. */
  datatype Option<+T> = None | Some(value: T)

  /** The outcome of a scanner step: a value, or the fatal error the source asserts on. */
  datatype Result<+T, +E> = Ok(value: T) | Fail(error: E) {
    predicate IsFailure() { Fail? }

    function PropagateFailure<U>(): Result<U, E>
      requires Fail?
    {
      Fail(error)
    }

    function Extract(): T
      requires Ok?
    {
      value
    }
  }
}
