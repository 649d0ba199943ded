/** Option and Result, the two failure-carrying shapes the model needs. */
module Wrappers {

  /** An optional value; `None` stands for "not a number" in the metrics. */
  datatype Option<+T> = None | Some(value: T)

  /** A value or the error that replaced it (an exception in the program). */
  datatype Result<+T, +E> = Ok(value: T) | Err(error: E)
}
