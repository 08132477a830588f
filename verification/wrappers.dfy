/** Option and Result, the failure-carrying values the rest of the model returns. */
module Wrappers {

  /** `None` stands for Go's nil where the source distinguishes nil from a value. */
  datatype Option<+T> = None | Some(value: T) {

    /** The carried value, or `default` when there is none. */
    function GetOr(default: T): T {
      match this
      case Some(v) => v
      case None => default
    }
  }

  /** A value or an error, for the source's `(value, error)` return pairs. */
  datatype Result<+T, +E> = Success(value: T) | Failure(error: E) {

    /** The value, or `default` on failure. */
    function GetOr(default: T): T {
      match this
      case Success(v) => v
      case Failure(_) => default
    }
  }
}
