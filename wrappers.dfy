/** Python's `None` and raised exceptions, as datatypes shared by the other modules. */
module Wrappers {

  /** Python's `None` or a present value. */
  datatype Option<T> = None | Some(value: T) {

    /** The value, or `default` for `None`. */
    function GetOr(default: T): T {
      match this
      case Some(v) => v
      case None => default
    }
  }

  /** A value, or the exception the Python code would raise. */
  datatype Result<T, E> = Ok(value: T) | Err(error: E)
}
