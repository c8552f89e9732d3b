/** Option and Result values, and the exceptions the backend raises. */
module Wrappers {

  datatype Option<+T> = None | Some(value: T)

  datatype Result<+R, +E> = Success(value: R) | Failure(error: E)

  /** The Python exception classes the backend raises.  For each of them
      `str(e)` is the message the exception was built with. */
  datatype Error =
    | ValueError(message: string)
    | RuntimeError(message: string)
    | TypeError(message: string)
    | PlainException(message: string)
  {
    /** Python's `str(e)`. */
    function Str(): (r: string)
      ensures r == message
    {
      match this
      case ValueError(m) => m
      case RuntimeError(m) => m
      case TypeError(m) => m
      case PlainException(m) => m
    }
  }
}
