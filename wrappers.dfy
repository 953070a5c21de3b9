/** Failure-compatible result types used for the store's checked exceptions. */
module Wrappers {

  /** A value that may be absent (SQL NULL, a missing row). */
  datatype Option<+T> = None | Some(value: T) {
    function GetOr(default: T): T
    {
      match this
      case Some(v) => v
      case None => default
    }
  }

  /** The outcome of an operation that returns a value or throws `E`. */
  datatype Result<+T, +E> = Ok(value: T) | Err(error: E)

  /** The outcome of a `void` operation that may throw `E`. */
  datatype Outcome<+E> = Pass | Fail(error: E)
}
