/** The usual Some/None datatype, standing in for the NULL and "not found" results of the C code. */
module Wrappers {
  datatype Option<+T> = None | Some(value: T)
}
