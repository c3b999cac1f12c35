/** The optional value used for every "maybe absent" result of the model. */
module Wrappers {
  datatype Option<+T> = None | Some(value: T)
}
