/** The optional value the decoder returns where the source returns Rust's `Option`. */
module Wrappers {

  datatype Option<+T> = None | Some(value: T)
}
