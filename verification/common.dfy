/** Small shared datatypes: optional values and results with an error. */
module Common {

  /** A value that may be missing: JavaScript's `undefined` / `null`. */
  datatype Option<+T> = None | Some(value: T) {

    /** The value, or `default` when missing. */
    function GetOr(default: T): T {
      match this
      case Some(v) => v
      case None => default
    }
  }

  /** The outcome of a validation: the accepted value or the error found. */
  datatype Result<+R, +E> = Success(value: R) | Failure(error: E)
}
