/** Absent values and the Python exceptions the library raises, as plain datatypes. */
module Common {

  /** A value that may be missing: Python's `None` versus a present value. */
  datatype Option<+T> = None | Some(value: T) {

    function GetOr(default: T): T {
      match this
      case Some(v) => v
      case None => default
    }
  }

  /** The exception classes that the modelled code raises or catches. */
  datatype Error =
    | IndexError
    | ValueError
    | KeyError
    | TypeError
    | AttributeError
    | AssertionError
    | StopIteration

  /** Either a returned value or a raised exception; usable with `:-`. */
  datatype Result<+T> = Success(value: T) | Failure(error: Error) {

    predicate IsFailure() {
      Failure?
    }

    function PropagateFailure<U>(): Result<U>
      requires Failure?
    {
      Failure(error)
    }

    function Extract(): T
      requires Success?
    {
      value
    }
  }
}
