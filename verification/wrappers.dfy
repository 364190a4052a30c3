/** Optional values (Java's nullable references) and success/failure outcomes
    (Java's thrown exceptions, made explicit). */
module Wrappers {

  /** A Java reference that may be null. */
  datatype Option<+T> = None | Some(value: T)

  /** The outcome of an operation that may throw. */
  datatype Result<+T, +E> = Ok(value: T) | Err(error: E)
}
