/** Failure-carrying wrappers used throughout the model. The Go code returns
    `(value, error)` pairs; here an `Err` carries the error text instead. */
module Wrappers {

  datatype Option<+T> = None | Some(value: T)

  datatype Result<+T> = Ok(value: T) | Err(error: string)
}
