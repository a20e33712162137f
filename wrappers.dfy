/** Option and Result, usable with `:-`, for the failure paths of the query client. */
module Wrappers {

  datatype Option<+T> = None | Some(value: T)

  /** The outcome of an operation that Python would end by raising. */
  datatype Result<+T, +E> = Ok(value: T) | Err(error: E) {

    predicate IsFailure() {
      Err?
    }

    function PropagateFailure<U>(): Result<U, E>
      requires Err?
    {
      Err(error)
    }

    function Extract(): T
      requires Ok?
    {
      value
    }
  }
}
