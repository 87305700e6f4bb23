/** Small shared vocabulary: optional values and failures. */
module Base {

  /** A value that may be absent, in place of JavaScript's `null`/`undefined` results. */
  datatype Option<+T> = None | Some(value: T) {

    /** The carried value, or `default` when there is none. */
    function GetOr(default: T): T {
      match this
      case Some(v) => v
      case None => default
    }
  }

  /** The outcome of an operation that either returns a value or throws an `Error`. */
  datatype Result<+T> = Ok(value: T) | Failure(message: string)
}
