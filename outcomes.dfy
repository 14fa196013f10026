/** Failure-carrying values shared by the modules of this model: a Python function
    that either returns a value or raises becomes a function returning a Result. */
module Outcomes {

  datatype Option<+T> = None | Some(value: T)

  datatype Result<+T, +E> = Ok(value: T) | Err(error: E)
}
