/** The optional value used for the nullable `Note?` of the screen. */
module Wrappers {
  datatype Option<+T> = None | Some(value: T)
}
