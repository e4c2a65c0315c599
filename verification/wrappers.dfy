/** Option and Result, used for PHP's null and for thrown exceptions. */
module Wrappers {

  datatype Option<+T> = None | Some(value: T) {
    /** The value, or the given default for None. */
    function GetOr(default: T): T {
      match this
      case Some(v) => v
      case None => default
    }
  }

  datatype Result<+R, +E> = Success(value: R) | Failure(error: E)
}
