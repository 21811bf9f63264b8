/** Optional values and success/failure results, used for nullable query
    results and for errors that the source reports as return values. */
module Wrappers {

  datatype Option<+T> = None | Some(value: T)

  datatype Result<+T, +E> = Success(value: T) | Failure(error: E)
}
