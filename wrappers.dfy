/** Failure-carrying wrappers shared by the other modules. */
module Wrappers {

  /** A value that may be absent: JavaScript's `undefined` / `null`. */
  datatype Option<+T> = None | Some(value: T) {

    /** `x ?? fallback` */
    function GetOr(fallback: T): T {
      match this
      case Some(v) => v
      case None => fallback
    }
  }

  /** A result or the error a function throws. */
  datatype Result<+R, +E> = Ok(value: R) | Err(error: E)
}
