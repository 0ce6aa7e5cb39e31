/** Option and Result values shared by the naming rules and the request flow. */
module Wrappers {

  /** A value that may be missing, such as an unset environment variable. */
  datatype Option<+T> = None | Some(value: T) {
    function GetOr(default: T): T {
      match this
      case Some(v) => v
      case None => default
    }
  }

  /** The outcome of a call that either returns a value or raises an exception
      whose `str()` is `msg`. */
  datatype Result<+T> = Ok(value: T) | Err(msg: string)
}
