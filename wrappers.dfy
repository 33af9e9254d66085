/** The usual optional value: PHP's null is `None`. */
module Wrappers {

  datatype Option<+T> = None | Some(value: T)
}
