/** Failure-carrying result types shared by the modules of this model. */
module Wrappers {

  /** A value that may be missing: a file that does not exist, a key not in a map. */
  datatype Option<+T> = None | Some(value: T)

  /** The outcome of an operation that can throw; `Err` carries the error message. */
  datatype Result<+T> = Ok(value: T) | Err(message: string) {
    predicate IsFailure() {
      Err?
    }

    function PropagateFailure<U>(): Result<U>
      requires Err?
    {
      Err(message)
    }

    function Extract(): T
      requires Ok?
    {
      value
    }
  }
}
