/** Optional values (a dictionary key that may be absent) and results (a value or a raised error). */
module Wrappers {

  /** `None` stands for a key that a dictionary does not hold. */
  datatype Option<+T> = None | Some(value: T) {

    /** The held value, or `default` when the key is absent (Python's `dict.get(key, default)`). */
    function GetOr(default: T): T {
      match this
      case Some(v) => v
      case None => default
    }
  }

  /** Either a value or the error that was raised instead. */
  datatype Result<+R, +E> = Ok(value: R) | Err(error: E)
}
