/** The optional value used for a map lookup that may find nothing. */
module Wrappers {

  /** A JavaScript property read either finds a value or yields `undefined`. */
  datatype Option<+T> = None | Some(value: T)
}
