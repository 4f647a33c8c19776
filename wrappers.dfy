/** Outcome datatypes shared by the models: an optional value and a value-or-error result. */
module Wrappers {

  datatype Option<T> = None | Some(value: T)

  datatype Result<T, E> = Ok(value: T) | Err(error: E)
}
