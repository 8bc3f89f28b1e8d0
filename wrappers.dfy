/** Failure-compatible result types shared by the analysis modules. */
module Wrappers {

  datatype Option<T> = None | Some(value: T)

  /** The outcome of a computation that may raise: a value, or the error raised. */
  datatype Result<T, E> = Ok(value: T) | Err(error: E) {

    predicate IsFailure() {
      Err?
    }

    function PropagateFailure<U>(): Result<U, E>
      requires Err?
    {
      Err(error)
    }

    function Extract(): T
      requires Ok?
    {
      value
    }
  }
}
