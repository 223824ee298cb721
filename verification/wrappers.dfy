/** Failure-compatible datatypes shared by every module of the model.
    `Error` names the Python exception class a source operation raises. */
module Wrappers {

  datatype Option<+T> = None | Some(value: T)

  /** The exception classes raised by the modelled operations. */
  datatype Error =
    | IndexError
    | ValueError
    | RuntimeError
    | AttributeError
    | ZeroDivisionError

  datatype Result<+T> = Ok(value: T) | Err(error: Error) {

    predicate IsFailure() {
      Err?
    }

    function PropagateFailure<U>(): Result<U>
      requires Err?
    {
      Err(error)
    }

    function Extract(): T
      requires Ok?
    {
      value
    }
  }
}
