/** The optional value used for the single-slot undo buffer and for a snapshot that may be absent. */
module Wrappers {
  datatype Option<+T> = None | Some(value: T)
}
