/** Failure-carrying wrappers shared by the whole model. */
module Wrappers {

  /** An optional value; `None` stands for Python's None and for a failed service call. */
  datatype Option<+T> = None | Some(value: T) {
    function GetOr(default: T): T {
      match this
      case Some(v) => v
      case None => default
    }
  }

  /** A value or the exception the source raises instead of returning it. */
  datatype Result<+T, +E> = Ok(value: T) | Err(error: E)
}
