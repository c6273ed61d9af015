// Small datatypes shared by every module.
module Prelude {

  datatype Option<+T> = None | Some(value: T)

  datatype Result<+T, +E> = Ok(value: T) | Err(error: E)

  /** The zero or one values an optional pointer holds. */
  function Held<T(==)>(o: Option<T>): set<T> {
    if o.Some? then {o.value} else {}
  }

  function Max(a: int, b: int): int {
    if a < b then b else a
  }

  function Min(a: int, b: int): int {
    if a < b then a else b
  }
}
