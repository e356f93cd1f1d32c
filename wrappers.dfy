/** Optional values and results with an error path, used by every other module. */
module Wrappers {

  /** A value that may be absent: a Go nil map, a Python `None`. */
  datatype Option<T> = None | Some(value: T) {
    function GetOr(default: T): T {
      match this
      case Some(v) => v
      case None => default
    }
  }

  /** The outcome of an operation that can fail: a Python exception becomes `Err`. */
  datatype Result<T, E> = Ok(value: T) | Err(error: E)
}
