/** Stock result types: a JavaScript `null`/`undefined` is `None`, a thrown error is `Err`. */
module Wrappers {

  datatype Option<+T> = None | Some(value: T)

  datatype Result<+T, +E> = Ok(value: T) | Err(error: E)
}
