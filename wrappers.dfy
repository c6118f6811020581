/** Result types shared by the modules of the document store. */
module Wrappers {

  datatype Option<T> = None | Some(value: T)

  /** A value, or the message of the error the source raises or returns instead. */
  datatype Result<T> = Ok(value: T) | Err(message: string)

  /** The outcome of an operation that returns no value. */
  datatype Status = Success | Failure(message: string)
}
