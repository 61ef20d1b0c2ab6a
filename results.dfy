/** Failure-carrying values shared by the packer and the loader. */
module Results {

  datatype Option<+T> = None | Some(value: T) {
    /** The wrapped value, or `default` for None (C#'s `??`). */
    function GetOr(default: T): T {
      match this
      case Some(v) => v
      case None => default
    }
  }

  /** A computation that either produced a value or raised an exception. */
  datatype Result<+T, +E> = Success(value: T) | Failure(error: E)
}
