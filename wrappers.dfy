/** The optional value used wherever a Python call can fail or a lookup can miss. */
module Wrappers {

  datatype Option<+T> = None | Some(value: T)

}
