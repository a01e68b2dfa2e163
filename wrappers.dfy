/** Option and Result, the two failure-carrying datatypes the model uses. */
module Wrappers {

  datatype Option<+T> = None | Some(value: T)

  /** A Go `(value, error)` pair: `Err` stands for a non-nil error (the value
      beside it is then Go's zero value, which no caller reads). */
  datatype Result<+T, +E> = Ok(value: T) | Err(error: E)
}
