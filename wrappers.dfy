/** Failure-carrying results shared by the parser, the lexer and the schema registry. */
module Wrappers {

  datatype Option<+T> = None | Some(value: T)

  /** The outcome of an operation that the source reports with an exception or an error message. */
  datatype Result<+T, +E> = Ok(value: T) | Err(error: E)
}
