/** The optional value shared by the expiry model. */
module Wrappers {

  /** A value that may be missing; Python's `Optional[...]` / `None`. */
  datatype Option<+T> = None | Some(value: T)
}
