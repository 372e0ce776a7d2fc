/** The optional value used wherever the program uses `None` or a missing entry. */
module Wrappers {
  datatype Option<+T> = None | Some(value: T)
}
