/** Failure-carrying values shared by every module: Python's exceptions and
    `None` returns become `Err` and `None` here. */
module Wrappers {

  datatype Option<+T> = None | Some(value: T)

  datatype Result<+T, +E> = Ok(value: T) | Err(error: E)

  datatype Unit = Unit
}
