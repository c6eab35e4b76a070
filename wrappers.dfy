/** An optional value: a null pointer in the demonstrator is `None`. */
module Wrappers {

  datatype Option<+T> = None | Some(value: T)
}
