/** The optional value used for the results of Rust's fallible parses. */
module Wrappers {

  datatype Option<+T> = None | Some(value: T)
}
