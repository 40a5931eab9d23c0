/** Optional values and failure-carrying results, shared by the scan and the proxy models. */
module Wrappers {

  /** A value that may be missing: Ruby's `nil` versus an object. */
  datatype Option<+T> = None | Some(value: T)

  /** The outcome of a call that may raise: its value, or the error it raised. */
  datatype Result<+R, +E> = Success(value: R) | Failure(error: E)
}
