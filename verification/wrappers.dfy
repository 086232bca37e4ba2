/** Option and Result: the model's stand-ins for PHP's null/false returns and exceptions. */
module Wrappers {

  /** A value that may be missing (`null` or `false` in the source). */
  datatype Option<+T> = None | Some(value: T) {
    function GetOr(default: T): T {
      match this
      case Some(v) => v
      case None => default
    }
  }

  /** Either a computed value or the exception the source throws. */
  datatype Result<+R, +E> = Success(value: R) | Failure(error: E)
}
