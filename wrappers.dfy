/** Option and Result values used for the cache's "null" answers and for the
    exceptions the statement decorator throws. */
module Wrappers {

  datatype Option<+T> = None | Some(value: T)

  datatype Result<+R, +E> = Success(value: R) | Failure(error: E)
}
