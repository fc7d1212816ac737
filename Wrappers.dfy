/** Optional values (a JavaScript `undefined` cell or lookup miss) and route results. */
module Wrappers {

  datatype Option<+T> = None | Some(value: T)

  /** The outcome of a route handler: a payload, or an error the route answers with. */
  datatype Result<+R, +E> = Success(value: R) | Failure(error: E)
}
