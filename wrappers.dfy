/** Optional values and results with an error, as used by the rest of the model. */
module Wrappers {

  /** Python's `Optional`: `None` or a present value. */
  datatype Option<+T> = None | Some(value: T)

  /** A computation that either returns a value or raises an error. */
  datatype Result<+R, +E> = Success(value: R) | Failure(error: E)
}
