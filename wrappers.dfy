/** The optional value used for fields the source leaves `undefined` until an event fills them. */
module Wrappers {

  datatype Option<+T> = None | Some(value: T)
}
