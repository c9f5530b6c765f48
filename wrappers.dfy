/** Optional values and results with an error, shared by every module of the model. */
module Wrappers {
  /** Python's `X | None`. */
  datatype Option<+T> = None | Some(value: T)

  /** A value, or the exception the source raises instead of returning one. */
  datatype Result<+T, +E> = Ok(value: T) | Err(error: E)
}
