/** Option and Result values used throughout the model in place of Python's None and exceptions. */
module Wrappers {

  datatype Option<+T> = None | Some(value: T) {
    function GetOr(default: T): T {
      match this
      case Some(v) => v
      case None => default
    }
  }

  /** The outcome of an operation that may raise: Ok carries the value, Err the exception kind. */
  datatype Result<+T, +E> = Ok(value: T) | Err(error: E)
}
