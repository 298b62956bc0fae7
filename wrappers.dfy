/** The optional value used wherever the source returns `null`/`undefined` or a found element. */
module Wrappers {

  datatype Option<+T> = None | Some(value: T)
}
