/** Option and Result values for Java's nulls, absent rows and exceptions. */
module Wrappers {

  datatype Option<+T> = None | Some(value: T) {
    /** The value, or `default` when absent (Java's `x != null ? x : default`). */
    function GetOr(default: T): T {
      match this
      case Some(v) => v
      case None => default
    }
  }

  /** The outcome of an operation that may throw: a value or the error it was aborted with. */
  datatype Result<+T, +E> = Ok(value: T) | Err(error: E)
}
