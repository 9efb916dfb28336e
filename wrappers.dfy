/** The optional value used wherever the source returns `None` or a row may be missing. */
module Wrappers {
  datatype Option<+T> = None | Some(value: T)
}
