/** A value that may be missing, in place of the C sources' NULL. */
module Wrappers {
  datatype Option<+T> = None | Some(value: T)
}
