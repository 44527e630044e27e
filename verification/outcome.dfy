/** Absent values and failures, as the explorer reports them. */
module Outcome {

  /** A value that may be missing: the explorer's `undefined` / `null`. */
  datatype Option<+T> = None | Some(value: T) {

    /** The wrapped value, or `default` when it is missing. */
    function GetOr(default: T): T {
      match this
      case Some(v) => v
      case None => default
    }
  }

  /** Either a value or the error the explorer would throw instead. */
  datatype Result<+R, +E> = Success(value: R) | Failure(error: E)
}
