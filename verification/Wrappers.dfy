/** Outcomes shared by the whole project. */
module Wrappers {

  /** A lookup that may find nothing. */
  datatype Option<+T> = None | Some(value: T)

  /** A call that may return an error instead of a value. */
  datatype Result<+T> = Ok(value: T) | Err
}
