/** Rust's `Option<T>`, used for optional config fields and lookups. */
module Wrappers {

  datatype Option<+T> = None | Some(value: T)

}
