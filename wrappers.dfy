/** An optional value: `None` for absence or failure, `Some(v)` otherwise. */
module Wrappers {
  datatype Option<+T> = None | Some(value: T)
}
