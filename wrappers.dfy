/** The optional value used for attributes that may be absent and for instants that may be invalid. */
module Wrappers {

  datatype Option<+T> = None | Some(value: T)
}
