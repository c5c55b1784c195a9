/** Failure-compatible helper datatypes shared by every module of the model:
    `Option` for the source's nullable columns and `undefined` lookups, and
    `Result` for handlers that answer either a value or an HTTP error. */
module Wrappers {

  datatype Option<+T> = None | Some(value: T) {

    /** The value, or `default` when absent: the `x || default` idiom of the
        source when `x` can only be missing, never falsy. */
    function GetOr(default: T): T
    {
      match this
      case Some(v) => v
      case None => default
    }
  }

  datatype Result<+T, +E> = Success(value: T) | Failure(error: E)
}
