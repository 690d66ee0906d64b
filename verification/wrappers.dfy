/** The wrappers used throughout the model: an optional value and a
    value-or-error result. */
module Wrappers {

  /** A value that may be absent (a missing file, a missing header). */
  datatype Option<+T> = None | Some(value: T) {

    /** The value, or `default` when there is none. */
    function GetOr(default: T): T {
      match this
      case Some(v) => v
      case None => default
    }
  }

  /** The outcome of an operation where the Python program raises an exception:
      the value, or the error it raises. */
  datatype Result<+R, +E> = Success(value: R) | Failure(error: E)
}
