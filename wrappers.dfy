/** Option and Result values for the operations that can come back empty or fail. */
module Wrappers {

  /** A value that may be absent: the source's `string | null`. */
  datatype Option<+T> = None | Some(value: T)

  /** A value or the message of the error the source would throw. */
  datatype Result<+T> = Ok(value: T) | Err(error: string)
}
