/** Optional values and error-carrying results, used where the source returns
    `None` or raises and catches an exception. */
module Wrappers {

  datatype Option<+T> = None | Some(value: T)

  datatype Result<+T, +E> = Success(value: T) | Failure(error: E)
}
