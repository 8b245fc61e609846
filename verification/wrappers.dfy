/** Optional values and results, the model's stand-ins for `undefined` and for thrown errors. */
module Wrappers {

  /** `None` plays JavaScript's `undefined` for an optional field. */
  datatype Option<+T> = None | Some(value: T) {

    /** The wrapped value, or `default` when absent. */
    function GetOr(default: T): T {
      match this
      case Some(v) => v
      case None => default
    }
  }

  /** Either a successfully computed value or an error description. */
  datatype Result<+T, +E> = Success(value: T) | Failure(error: E)
}
