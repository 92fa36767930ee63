/** Failure-carrying result types shared by every module of the model.
    The renderer reports its error conditions as Python exceptions; each
    exception class it raises has a constructor here. */
module Wrappers {

  datatype Option<+T> = None | Some(value: T)

  /** The Python exception classes the modelled code raises. */
  datatype Exception =
    | RuntimeError(message: string)
    | KeyError(message: string)
    | ValueError(message: string)
    | IndexError
    | AssertionError
    | NameError(name: string)
    /** Raised by `raise "text"`: a string is not an exception object. */
    | TypeError(message: string)
    /** Python's `1.0 / 0`. */
    | ZeroDivisionError

  datatype Result<+T> = Ok(value: T) | Err(exception: Exception)
}
