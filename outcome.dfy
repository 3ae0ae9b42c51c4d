/** The result of an operation that can fail, as the C++ code's exceptions are modelled. */
module Outcome {

  datatype Result<T, E> = Ok(value: T) | Err(error: E)

  /** An optional value (boost::optional). */
  datatype Option<T> = None | Some(value: T)
}
