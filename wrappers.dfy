/** The optional value used wherever the source may yield Python's `None`. */
module Wrappers {
  datatype Option<+T> = None | Some(value: T)
}
