/** Optional values and results with an error, used throughout the model. */
module Wrappers {

  /** A JSON field or a database row that may be absent. */
  datatype Option<T> = None | Some(value: T)

  /** The outcome of a handler: a value, or the error it raises. */
  datatype Result<T, E> = Success(value: T) | Failure(error: E)
}
