/** Python exceptions raised by the simulator, and a failure-compatible result type
    so that every raising path of the source is an explicit value of the model. */
module Outcomes {

  /** The exception classes the source raises or lets propagate. */
  datatype Error =
    | ValueError(message: string)
    | KeyError(key: string)
    | IndexError
    | AttributeError(attribute: string)
    | TypeError
    | NotImplementedError
    | ZeroDivisionError
    | AssertionError
    | OSError(message: string)
    | NameError(name: string)
    | SystemExit(code: int)

  /** A value that may be absent (Python's `None`). */
  datatype Option<+T> = None | Some(value: T)

  /** Either a value or the exception that ended the computation. */
  datatype Result<+T> = Ok(value: T) | Err(error: Error) {

    predicate IsFailure() {
      Err?
    }

    function PropagateFailure<U>(): Result<U>
      requires Err?
    {
      Err(error)
    }

    function Extract(): T
      requires Ok?
    {
      value
    }
  }
}
