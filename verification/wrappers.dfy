/** Optional values and results with an error message, used wherever the
    dashboard backend returns None or raises. */
module Wrappers {

  datatype Option<+T> = None | Some(value: T) {

    /** The wrapped value, or `default` when there is none. */
    function GetOr(default: T): T {
      match this
      case Some(v) => v
      case None => default
    }
  }

  /** A value, or the message of the exception the backend would raise. */
  datatype Result<+T> = Success(value: T) | Failure(error: string)
}
