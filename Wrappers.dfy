/** The optional value used where the source returns `null` or skips a row. */
module Wrappers {

  datatype Option<+T> = None | Some(value: T)
}
