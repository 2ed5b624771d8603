/** Optional values and results with an error, the two shapes every use case returns. */
module Wrappers {

  /** A value that may be missing: the model of a repository lookup that returns `null`. */
  datatype Option<+T> = None | Some(value: T)

  /** Either a returned value or a thrown error. */
  datatype Result<+T, +E> = Ok(value: T) | Err(error: E)
}
