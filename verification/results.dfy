/** Failure-carrying values used throughout the model: a Python value that may
    be `None`, and an operation that either returns or raises. */
module Results {

  /** A value that may be absent (a missing dictionary key or `None`). */
  datatype Option<+T> = None | Some(value: T) {

    /** The value, or `default` when absent. */
    function GetOr(default: T): T {
      match this
      case Some(v) => v
      case None => default
    }
  }

  /** Either a returned value or the error an operation raised. */
  datatype Result<+T, +E> = Ok(value: T) | Err(error: E)
}
