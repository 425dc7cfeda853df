/** The optional value used for "this file may not exist yet". */
module Wrappers {

  /** `None` stands for a file that does not exist, `Some(v)` for one whose contents are `v`. */
  datatype Option<+T> = None | Some(value: T)
}
