/** The optional value the tree hands back where the C++ code returns a null pointer. */
module Wrappers {
  datatype Option<+T> = None | Some(value: T)
}
