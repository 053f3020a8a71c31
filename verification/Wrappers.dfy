/** The two result types the rest of the project shares. */
module Wrappers {
  datatype Option<+T> = None | Some(value: T)

  /** A value, or the error the program would throw. */
  datatype Result<+T, +E> = Ok(value: T) | Err(error: E) {
    predicate IsFailure() {
      Err?
    }

    function PropagateFailure<U>(): Result<U, E>
      requires Err?
    {
      Err(error)
    }

    function Extract(): T
      requires Ok?
    {
      value
    }
  }
}
