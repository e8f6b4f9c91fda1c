/** Option and Result: the values that stand in for Java's null returns and
    thrown exceptions in this model. */
module Wrappers {

  datatype Option<+T> = None | Some(value: T)

  datatype Result<+T, +E> = Ok(value: T) | Err(error: E)
}
