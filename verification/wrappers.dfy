/** The optional value used where a parse may fail. */
module Wrappers {

  datatype Option<+T> = None | Some(value: T)
}
