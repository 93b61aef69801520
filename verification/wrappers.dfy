/** Option and Result, the two shapes every fallible operation of the model returns. */
module Wrappers {

  /** A value that may be absent: a missing JSON key, a regex without a match, `None`. */
  datatype Option<+T> = None | Some(value: T) {

    /** The value, or `default` when absent (Python's `dict.get(key, default)`). */
    function GetOr(default: T): T {
      match this
      case Some(v) => v
      case None => default
    }
  }

  /** Either a value or an error description. */
  datatype Result<+T, +E> = Ok(value: T) | Err(error: E)
}
