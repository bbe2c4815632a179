/** Option and Result datatypes shared by the modules of the automaton model. */
module Wrappers {

  datatype Option<T> = None | Some(value: T)

  /** The value-or-error pair a Go function returns as `(T, error)`. */
  datatype Result<T, E> = Ok(value: T) | Err(error: E)
}
