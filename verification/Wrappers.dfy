/** Failure-compatible wrappers used by the store model. */
module Wrappers {

  /** A value that may be absent, as `Map.get` returning `undefined`. */
  datatype Option<+T> = None | Some(value: T)

  /** The outcome of a store operation that can be rejected. */
  datatype Result<+T, +E> = Success(value: T) | Failure(error: E)
}
