/** The optional value used where the C code returns a null pointer or has no defined result. */
module Wrappers {
  datatype Option<+T> = None | Some(value: T)
}
