/** Optional values and fallible results, the two shapes the server code
    returns everywhere (`Option<T>` and `Result<T, E>` in the source). */
module Wrappers {

  datatype Option<+T> = None | Some(value: T)

  datatype Result<+T, +E> = Success(value: T) | Failure(error: E)
}
