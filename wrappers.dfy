/** Success/failure results: the model's stand-in for the exceptions the
    SCIF tool raises. */
module Wrappers {

  datatype Result<+T, +E> = Ok(value: T) | Err(error: E)
}
