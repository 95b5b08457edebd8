/** Option and Result values used for the compiler's nullable references and
    for the semantic errors it throws. */
module Wrappers {
  datatype Option<+T> = None | Some(value: T)

  datatype Result<+T, +E> = Ok(value: T) | Err(error: E)
}
