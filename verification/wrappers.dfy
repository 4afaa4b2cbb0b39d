/** An optional value, used where the source may have no value to give. */
module Wrappers {

  datatype Option<+T> = None | Some(value: T)
}
