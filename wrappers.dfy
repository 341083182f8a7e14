/** A pointer field that may be NULL, modelled as an optional offset. */
module Wrappers {
  datatype Option<T> = None | Some(value: T)
}
