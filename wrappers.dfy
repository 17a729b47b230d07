/** The optional-value type that Rust's `Option` stands for throughout the model. */
module Wrappers {

  datatype Option<+T> = None | Some(value: T)
}
