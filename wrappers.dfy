/** Small value wrappers shared by the other modules. */
module Wrappers {

  /** A value that may be absent (JSON `null`, an embed without a description). */
  datatype Option<+T> = None | Some(value: T)
}
