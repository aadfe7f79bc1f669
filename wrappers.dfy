/** Option, the stand-in for Rust's `Option<T>`. */
module Wrappers {

  datatype Option<+T> = None | Some(value: T)

}
