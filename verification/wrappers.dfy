/** Optional values and results shared by the other modules. */
module Wrappers {

  /** A value that may be absent: a JavaScript `undefined`/`null`, or `NaN` for a parse. */
  datatype Option<+T> = None | Some(value: T) {

    function GetOr(default: T): T {
      match this
      case Some(v) => v
      case None => default
    }
  }

  /** Either a value or the error that stopped the computation. */
  datatype Result<+T, +E> = Ok(value: T) | Err(error: E)
}
