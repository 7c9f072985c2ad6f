/** The optional value used where the firmware works with a pointer that may be NULL. */
module Wrappers {

  datatype Option<+T> = None | Some(value: T)
}
