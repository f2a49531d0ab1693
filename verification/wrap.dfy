/** Results with an error case, used where the Go code returns a value and an `error`. */
module Wrap {
  datatype Option<+T> = None | Some(value: T)

  datatype Result<+T> = Ok(value: T) | Err
}
