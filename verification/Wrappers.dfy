/** The optional-value datatype shared by the other modules. */
module Wrappers {

  /** A value that may be absent: used for outcomes that are either a result or nothing. */
  datatype Option<+T> = None | Some(value: T)
}
