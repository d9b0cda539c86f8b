/** The optional value used where the source returns "not found" or `nil`. */
module Wrappers {

  datatype Option<+T> = None | Some(value: T)

}
