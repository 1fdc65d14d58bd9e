/** The "pointer or NULL" idiom of the C code: a cursor into a buffer is
    `Some(index)`, a NULL cursor is `None`. */
module Wrappers {

  datatype Option<+T> = None | Some(value: T)
}
