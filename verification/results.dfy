/** Option and Result: the settled outcome of a promise-returning operation.
    `Success` stands for a `resolve`, `Failure` for a `reject` carrying its reason. */
module Results {

  /** A value that may be absent (a JavaScript property that may be missing). */
  datatype Option<+T> = None | Some(value: T) {

    /** The value, or `default` when it is absent. */
    function GetOr(default: T): T {
      match this
      case Some(v) => v
      case None => default
    }
  }

  /** The first settlement of a promise: resolved with a value or rejected with a reason. */
  datatype Result<+R, +E> = Success(value: R) | Failure(error: E)
}
