/** Optional values and error-or-value results, used for the archive's
    exception path and for the reference decoder. */
module Wrappers {

  datatype Option<+T> = None | Some(value: T)

  datatype Result<+T, +E> = Success(value: T) | Failure(error: E)
}
