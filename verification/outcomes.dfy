/** Failure-carrying wrappers shared by the other modules. */
module Outcomes {

  /** A value that may be absent; `None` also stands for std::string::npos. */
  datatype Option<+T> = None | Some(value: T)

  /** Either a computed value or the reason it could not be computed. */
  datatype Result<+T, +E> = Ok(value: T) | Err(error: E)
}
