/** Option and Result: how the model says "no value" (Python's EOFError,
    an empty column) and "raised an exception" (ValueError). */
module Wrappers {

  datatype Option<+T> = None | Some(value: T)

  datatype Result<+T, +E> = Ok(value: T) | Err(error: E)
}
