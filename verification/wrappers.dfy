/**
 * Option and Result types shared by every module of the model.  Rust's
 * `Option<T>` and `Result<T, E>` are mapped onto these one for one.
 */
module Wrappers {

  datatype Option<+T> = None | Some(value: T)
  {
    predicate IsSome() { Some? }

    function GetOr(default: T): T
    {
      match this
      case Some(v) => v
      case None => default
    }
  }

  datatype Result<+T, +E> = Ok(value: T) | Err(error: E)
  {
    predicate IsOk() { Ok? }
  }
}
