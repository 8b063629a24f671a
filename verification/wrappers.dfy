/** Failure-carrying results used by the operations that can fail in the scripts. */
module Wrappers {

  /** A value that may be absent, as Python's `None`. */
  datatype Option<+T> = None | Some(value: T)

  /** Either a value or the error the script would raise or report. */
  datatype Result<+T, +E> = Ok(value: T) | Err(error: E)
}
