/** Optional values and results with an error, as the route handler uses them:
    a chain read that yields no block, a contract call that rejects. */
module Wrappers {

  datatype Option<+T> = None | Some(value: T)

  datatype Result<+R, +E> = Success(value: R) | Failure(error: E)
}
