/** Option, as returned by the validating constructors of the codec. */
module Wrappers {

  datatype Option<+T> = None | Some(value: T)

}
