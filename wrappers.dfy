/** Rust's `Option`, as the relay's values use it. */
module Wrappers {

  datatype Option<+T> = None | Some(value: T)
}
