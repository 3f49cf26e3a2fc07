/** Failure-compatible wrappers used across the model: Python's `None`
    and raised exceptions become explicit values. */
module Wrappers {

  /** A value that may be absent (Python's `None`). */
  datatype Option<+T> = None | Some(value: T)
  {
    /** The value, or `default` when absent. */
    function GetOr(default: T): T
    {
      match this
      case Some(v) => v
      case None => default
    }
  }

  /** Either a value or an error (an exception the source raises). */
  datatype Result<+R, +E> = Success(value: R) | Failure(error: E)
}
