/** An optional value: JavaScript's `NaN` or an early `return` with nothing. */
module Wrappers {
  datatype Option<T> = None | Some(value: T)
}
