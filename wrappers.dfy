/** Optional values and results with an error, as the route handlers return them. */
module Wrappers {

  datatype Option<+T> = None | Some(value: T) {
    /** The value if present, otherwise `default`. */
    function GetOr(default: T): T {
      match this
      case Some(v) => v
      case None => default
    }
  }

  datatype Result<+R, +E> = Ok(value: R) | Err(error: E)
}
