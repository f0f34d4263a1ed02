/** Optional values and success/failure results, used for JavaScript's
    `undefined` returns and for errors a caller may or may not catch. */
module Wrappers {

  datatype Option<+T> = None | Some(value: T)

  datatype Result<+R, +E> = Success(value: R) | Failure(error: E)
}
