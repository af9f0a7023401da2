/** Python's `None` and raised exceptions, as values. */
module Wrappers {

  /** `None` or a present value. */
  datatype Option<+T> = None | Some(value: T)

  /** A value, or the exception a Python call raises instead of returning. */
  datatype Result<+T, +E> = Success(value: T) | Failure(error: E)
}
