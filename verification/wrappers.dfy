/** Optional values and results with an error, used where the game either
    produces a value or reports that it cannot. */
module Wrappers {

  datatype Option<+T> = None | Some(value: T)

  datatype Result<+R, +E> = Success(value: R) | Failure(error: E)
}
