/** Optional values and results with an error, standing in for Ruby's nil returns and raised exceptions. */
module Outcome {

  datatype Option<+T> = None | Some(value: T)

  datatype Result<+T, +E> = Ok(value: T) | Err(error: E)
}
