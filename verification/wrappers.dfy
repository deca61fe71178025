/** Optional values and results with an error, for the source's null results and thrown exceptions. */
module Wrappers {

  /** A value that may be absent, standing for a Java reference that may be null. */
  datatype Option<+T> = None | Some(value: T)

  /** The outcome of an operation that may throw instead of returning. */
  datatype Result<+R, +E> = Ok(value: R) | Err(error: E)
}
