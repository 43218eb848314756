/** The optional-value datatype used where the Rust source returns `Option`. */
module Wrappers {

  datatype Option<+T> = None | Some(value: T)

}
