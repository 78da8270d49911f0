/** Optional values and results with an error; a `Result` error stands for an exception dobackup raises. */
module Wrappers {

  datatype Option<+T> = None | Some(value: T)

  datatype Result<+T, +E> = Ok(value: T) | Err(error: E)
}
