// Small value wrappers shared by the modules of this model.
module Wrappers {
  /** An optional value: a null pointer, an absent key, a missing field. */
  datatype Option<T> = None | Some(value: T) {
    predicate IsSome() { Some? }
    function GetOr(default: T): T { if Some? then value else default }
  }

  /** The outcome of an operation that the C++ code ends by throwing. */
  datatype Result<T, E> = Ok(value: T) | Err(error: E) {
    predicate IsOk() { Ok? }
  }
}
