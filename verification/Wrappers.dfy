/** Failure-carrying values used in place of Python's None and exceptions. */
module Wrappers {

  /** An optional value: Python's `None` or a present value. */
  datatype Option<+T> = None | Some(value: T) {
    /** `d.get(key, default)`: the value when present, else the default. */
    function GetOr(default: T): T {
      match this
      case Some(v) => v
      case None => default
    }
  }

  /** Either a value or the error an operation raised instead of returning one. */
  datatype Result<+R, +E> = Success(value: R) | Failure(error: E)
}
