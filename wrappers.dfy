/** Option and Result, the failure-aware return types used throughout the model. */
module Wrappers {

  /** A query that may find nothing (Django's `.first()` returning None). */
  datatype Option<+T> = None | Some(value: T)

  /** An operation that may raise: `Err` carries the exception the source would raise. */
  datatype Result<+T, +E> = Ok(value: T) | Err(error: E) {
    predicate IsFailure() { Err? }

    function PropagateFailure<U>(): Result<U, E>
      requires Err?
    {
      Err(error)
    }

    function Extract(): T
      requires Ok?
    {
      value
    }
  }
}
