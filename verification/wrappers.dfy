/** Failure-carrying datatypes used in place of the source's thrown errors and `undefined` values. */
module Wrappers {

  /** A value that may be absent (`undefined` in the source, or a lookup that found nothing). */
  datatype Option<+T> = None | Some(value: T) {

    /** The value, or `default` when absent. */
    function GetOr(default: T): T {
      match this
      case Some(v) => v
      case None => default
    }
  }

  /** Either a computed value or the error a source function would have thrown. */
  datatype Result<+R, +E> = Success(value: R) | Failure(error: E) {

    /** Forgets the error, as a caller that catches everything does. */
    function ToOption(): Option<R> {
      match this
      case Success(v) => Some(v)
      case Failure(_) => None
    }
  }

  /** A step that either completes or throws, with nothing to return. */
  datatype Outcome<+E> = Pass | Fail(error: E)
}
