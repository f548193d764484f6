/** Small failure-carrying datatypes shared by the other modules. */
module Wrappers {

  /** A value that may be absent, as a JavaScript `null` or `undefined` would be. */
  datatype Option<+T> = None | Some(value: T) {

    /** The wrapped value, or `default` when there is none. */
    function GetOr(default: T): T {
      match this
      case Some(v) => v
      case None => default
    }
  }

  /** Either a result or the reason an operation was refused. */
  datatype Result<+R, +E> = Success(value: R) | Failure(error: E)

  function Max(a: int, b: int): int {
    if a >= b then a else b
  }

  function Min(a: int, b: int): int {
    if a <= b then a else b
  }
}
