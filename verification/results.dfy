/** Failure-carrying values: Go's `(value, error)` pairs are modelled as an
    `Option` (a value that may be absent) or a `Result` (a value or an error). */
module Results {

  datatype Option<+T> = None | Some(value: T) {

    /** The carried value, or `default` when there is none. */
    function GetOr(default: T): T {
      match this
      case Some(v) => v
      case None => default
    }
  }

  datatype Result<+T, +E> = Ok(value: T) | Err(error: E)
}
