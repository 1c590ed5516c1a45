/** Result types shared by every module of the model. */
module Wrappers {

  datatype Option<+T> = None | Some(value: T)

  /** A Go `(value, error)` pair: the text of the error is not modelled, only that there is one. */
  datatype Result<+T> = Ok(value: T) | Err

}
