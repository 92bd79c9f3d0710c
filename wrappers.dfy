/** Optional values and results with an error message. */
module Wrappers {

  datatype Option<T> = None | Some(value: T) {
    function GetOr(default: T): T
    {
      match this
      case Some(v) => v
      case None => default
    }
  }

  /** The outcome of an operation that may raise: `Err` carries what was raised. */
  datatype Result<T> = Ok(value: T) | Err(error: string)
}
