/** Nullable values and results of the Java code. */
module Wrappers {

  /** A nullable column or reference: `None` stands for SQL NULL / Java null. */
  datatype Option<+T> = None | Some(value: T) {
    function GetOr(default: T): T {
      match this
      case Some(v) => v
      case None => default
    }
  }

  /** A value or an error, for the source's exceptions and failure responses. */
  datatype Result<+R, +E> = Ok(value: R) | Err(error: E)
}
