/** Optional values and success-or-error results, used for the library checks
    and for the error responses of the endpoints. */
module Wrappers {

  datatype Option<+T> = None | Some(value: T)

  datatype Result<+R, +E> = Success(value: R) | Failure(error: E)
}
