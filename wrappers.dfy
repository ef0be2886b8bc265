/** Failure-carrying values shared by every module of the model. */
module Wrappers {

  datatype Option<T> = None | Some(value: T) {
    function GetOr(default: T): T {
      match this
      case Some(v) => v
      case None => default
    }
  }

  /** `Err` stands for a raised Python exception (ValueError, AssertionError, ...). */
  datatype Result<T> = Ok(value: T) | Err(error: string)
}
