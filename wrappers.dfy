/** Optional values and results with an error, used wherever the program
    either produces a value or rejects its input. */
module Wrappers {

  datatype Option<T> = None | Some(value: T)

  datatype Result<T, E> = Ok(value: T) | Err(error: E)
}
