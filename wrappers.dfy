/** Option and Result, the two failure-carrying values used across the model. */
module Wrappers {

  /** A Java reference that may be `null`. */
  datatype Option<+T> = None | Some(value: T) {
    function GetOr(default: T): T {
      match this
      case Some(v) => v
      case None => default
    }
  }

  /** The value a Java method returns, or the exception it throws instead. */
  datatype Result<+T, +E> = Ok(value: T) | Err(error: E)
}
