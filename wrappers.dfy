/** Optional values and results that carry an error, as the processor's
    `None` and raised exceptions are modelled. */
module Wrappers {

  datatype Option<+T> = None | Some(value: T)

  datatype Result<+R, +E> = Success(value: R) | Failure(error: E)
}
