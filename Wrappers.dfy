module Wrappers {

  /** A value that may be absent, as Python's `None`. */
  datatype Option<T> = None | Some(value: T)
}
