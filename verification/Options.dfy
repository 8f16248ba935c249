/** The result shapes shared by every model: a value that may be undefined, and a call that may throw. */
module Options {

  datatype Option<+T> = None | Some(value: T)

  datatype Result<+T, +E> = Ok(value: T) | Err(error: E)
}
