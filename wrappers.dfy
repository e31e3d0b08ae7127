/** Option, Result and the error values the procfs operations return. */
module Wrappers {

  datatype Option<+T> = None | Some(value: T)

  /** The `error` half of a Go `(value, error)` pair. */
  datatype Error =
    | NotExist           // the sentinel os.ErrNotExist
    | Text(msg: string)  // any other error, known by its message

  datatype Result<+T> = Ok(value: T) | Err(error: Error)
}
