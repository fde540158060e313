/** The optional value used for a comment that may lack a body and for an
    author that may be missing. */
module Wrappers {
  datatype Option<+T> = None | Some(value: T)
}
