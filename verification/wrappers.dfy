/** Failure-carrying values shared by the rest of the model. */
module Wrappers {

  /** A value that may be absent (Rust's `Option`). */
  datatype Option<+T> = None | Some(value: T) {

    /** The carried value, or `default` when absent (Rust's `unwrap_or`). */
    function GetOr(default: T): T {
      match this
      case Some(v) => v
      case None => default
    }
  }

  /** A value or an error message (Rust's `Result<T, String>`). */
  datatype Result<+T> = Ok(value: T) | Err(error: string)
}
