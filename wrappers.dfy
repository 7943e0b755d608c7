/** Optional values and results with an error side, used for the source's
    `None` and for the exceptions its queries raise. */
module Wrappers {

  datatype Option<+T> = None | Some(value: T)

  datatype Result<+R, +E> = Success(value: R) | Failure(error: E)
}
