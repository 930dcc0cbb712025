/** Optional values, shared by the component models. */
module Wrappers {

  /** A value that may be absent: an optional record field, or a component that renders nothing. */
  datatype Option<+T> = None | Some(value: T)
}
