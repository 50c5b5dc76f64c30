/** The optional value the source expresses with Python's `None`. */
module Wrappers {

  /** Either no value (`None`) or exactly one value. */
  datatype Option<+T> = None | Some(value: T)
}
