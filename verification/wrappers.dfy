/** Option and Result types used across the model: `Option` stands for PHP's
    `null`-or-value and for absent array keys, `Result` for a call that either
    returns or throws. */
module Wrappers {

  datatype Option<+T> = None | Some(value: T) {

    /** The wrapped value, or `default` when there is none (PHP's `?? default`). */
    function GetOr(default: T): T {
      match this
      case Some(v) => v
      case None => default
    }
  }

  datatype Result<+T, +E> = Success(value: T) | Failure(error: E)
}
