/** The optional value used by the reference parser of rendered identifiers. */
module Wrappers {

  datatype Option<+T> = None | Some(value: T)
}
