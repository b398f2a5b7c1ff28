/** The nullable results of the model: JavaScript's `null` and `undefined` are `None`. */
module Wrappers {

  datatype Option<+T> = None | Some(value: T)
}
