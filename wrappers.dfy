/** Option and Result, the two failure-carrying shapes the Rust code uses
    (`Option<T>` and `Result<T, E>`). */
module Wrappers {

  datatype Option<+T> = None | Some(value: T) {
    /** `unwrap_or` / `unwrap_or_default` with the default spelled out. */
    function GetOr(default: T): T {
      match this
      case Some(v) => v
      case None => default
    }
  }

  datatype Result<+T, +E> = Success(value: T) | Failure(error: E)
}
