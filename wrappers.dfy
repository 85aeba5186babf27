/** Option, the shape of Rust's `Option<T>` and of a call that may panic. */
module Wrappers {
  datatype Option<+T> = None | Some(value: T)
}
