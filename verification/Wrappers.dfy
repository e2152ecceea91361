/** A value that may be missing: Go's nil references, missing map entries and zero times. */
module Wrappers {
  datatype Option<+T> = None | Some(value: T)
}
