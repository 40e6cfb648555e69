/** The optional value used for a registry value that may be absent and for a
    listener argument that may be null. */
module Wrappers {
  datatype Option<+T> = None | Some(value: T)
}
