/** Absent values and the exceptions the analysis scripts can raise. */
module Wrappers {

  /** A value that may be absent (Python's `None`). */
  datatype Option<+T> = None | Some(value: T)

  /** Either a computed value or the error the script would have raised. */
  datatype Result<+R, +E> = Success(value: R) | Failure(error: E)
}
