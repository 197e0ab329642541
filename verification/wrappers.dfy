/** Rust's `Option` and `Result`, as the fail-stop wrapper and the error
    conversions use them. */
module Wrappers {

  datatype Option<+T> = None | Some(value: T)

  datatype Result<+T, +E> = Ok(value: T) | Err(error: E)

  /** The item shape `Some(Err(..))` that the fail-stop wrapper latches on. */
  predicate IsSomeErr<T, E>(item: Option<Result<T, E>>) {
    item.Some? && item.value.Err?
  }
}
