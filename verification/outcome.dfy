/** Optional values and fallible results, as Rust's `Option` and `Result`. */
module Outcome {

  datatype Option<T> = None | Some(value: T) {
    predicate IsSome() {
      Some?
    }
  }

  datatype Result<T, E> = Ok(value: T) | Err(error: E) {
    predicate IsOk() {
      Ok?
    }
  }
}
