/** A value that may be missing: Go's `(value, err)` pairs and nil pointers
    where the error carries no information the callers use. */
module Wrappers {
  datatype Option<T> = None | Some(value: T)
}
