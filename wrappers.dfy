/** Failure-carrying values used across the model.
    Option stands for a Java reference that may be null; Result for a call
    that either returns a value or throws; Outcome for a call whose only
    observable result is whether it threw. */
module Wrappers {

  datatype Option<+T> = None | Some(value: T) {
    /** The value, or `default` for None (Java's Optional.ofNullable(x).orElse(d)). */
    function GetOr(default: T): T {
      match this
      case Some(v) => v
      case None => default
    }
  }

  datatype Result<+R, +E> = Success(value: R) | Failure(error: E)

  datatype Outcome<+E> = Pass | Fail(error: E)
}
