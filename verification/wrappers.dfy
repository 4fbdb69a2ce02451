/** Option and Result, the nullable values and the error returns of the dashboard code. */
module Wrappers {

  /** A nullable value: `None` is the source's `null` / `undefined`. */
  datatype Option<+T> = None | Some(value: T) {

    /** The value, or `default` when absent (the source's `x ?? default`). */
    function GetOr(default: T): T {
      match this
      case Some(v) => v
      case None => default
    }
  }

  /** An operation that either produces a value or is rejected with a message. */
  datatype Result<+R> = Success(value: R) | Failure(error: string)
}
