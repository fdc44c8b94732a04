/** Failure-carrying values shared by the benchmark modules. */
module Wrappers {

  /** A value that may be absent, like a Python `None`-able value. */
  datatype Option<+T> = None | Some(value: T) {
    function GetOr(default: T): T {
      match this
      case Some(v) => v
      case None => default
    }
  }

  /** The value of a call that either returns or raises. */
  datatype Result<+T, +E> = Ok(value: T) | Err(error: E)
}
