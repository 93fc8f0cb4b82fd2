/** The usual Some/None datatype, used where the C and C++ sources use a null pointer. */
module Wrappers {
  datatype Option<+T> = None | Some(value: T)
}
