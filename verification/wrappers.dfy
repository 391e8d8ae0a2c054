/** Optional values and error results shared by every module of the model. */
module Wrappers {

  /** A value that may be missing: Python's `None` or a JavaScript `undefined`. */
  datatype Option<+T> = None | Some(value: T) {

    /** The wrapped value, or `default` when there is none. */
    function GetOr(default: T): T {
      match this
      case Some(v) => v
      case None => default
    }
  }

  /** The outcome of a step that can fail with an error message. */
  datatype Result<+R, +E> = Success(value: R) | Failure(error: E)
}
