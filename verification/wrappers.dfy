/** Failure-carrying datatypes shared by the model: `Option` for values Python
    represents with `None` (or minus infinity), `Result` for operations that
    raise. */
module Wrappers {

  datatype Option<+T> = None | Some(value: T)

  datatype Result<+T, +E> = Ok(value: T) | Err(error: E)
}
