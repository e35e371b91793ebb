/** The optional value shared by the modules. */
module Wrappers {

  /** A result that may be missing: an operation that throws or reports false. */
  datatype Option<T> = None | Some(value: T)
}
