/** Optional values and success-or-error results, shared by the other modules. */
module Wrappers {

  /** A value that may be missing: a NULL column, an absent key. */
  datatype Option<+T> = None | Some(value: T)

  /** The outcome of a controller action: the record it produced, or the error it reports. */
  datatype Result<+T, +E> = Ok(value: T) | Err(error: E)
}
