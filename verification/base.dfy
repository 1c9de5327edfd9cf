/** Small value types shared by every module of the model: the optional
    values that stand for JavaScript's `null`/`undefined` fields, and the
    outcome of an operation that can throw. */
module Base {

  /** A value that may be absent (`undefined` or `null` in the script). */
  datatype Option<+T> = None | Some(value: T) {

    /** The value, or `default` when absent. */
    function GetOr(default: T): T {
      match this
      case Some(v) => v
      case None => default
    }
  }

  /** The outcome of an operation that may throw an exception. */
  datatype Result<+T, +E> = Ok(value: T) | Err(error: E)
}
