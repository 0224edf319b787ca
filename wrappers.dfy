/** Optional values and results with an error, used for the source's absent
    arguments and for the input-contract error that fusion raises. */
module Wrappers {

  datatype Option<+T> = None | Some(value: T)

  datatype Result<+R, +E> = Success(value: R) | Failure(error: E)
}
