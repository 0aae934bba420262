/** Failure-carrying results: `None`/`Err` stand for the exceptions the Java and Python code throws. */
module Wrappers {

  datatype Option<+T> = None | Some(value: T)

  datatype Result<+T, +E> = Ok(value: T) | Err(error: E)
}
