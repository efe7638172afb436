/** Failure-compatible wrappers shared by every module of the model:
    Rust's `Option<T>` and `Result<T, E>`. */
module Wrappers {

  /** Rust's `Option<T>`. */
  datatype Option<+T> = None | Some(value: T) {

    /** `unwrap_or(default)` */
    function GetOr(default: T): T {
      match this
      case Some(v) => v
      case None => default
    }
  }

  /** Rust's `Result<T, E>`; `eyre::Report` errors are carried as their message. */
  datatype Result<+T, +E> = Success(value: T) | Failure(error: E)
}
