/** Optional values and results with an error, used for SQL rows that may be
    missing, nullable columns and the exceptions the handlers can raise. */
module Wrappers {

  datatype Option<+T> = None | Some(value: T)

  datatype Result<+R, +E> = Success(value: R) | Failure(error: E)
}
