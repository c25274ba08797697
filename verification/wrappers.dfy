/** The optional value used wherever a Python call may come back with nothing. */
module Wrappers {
  datatype Option<+T> = None | Some(value: T)
}
