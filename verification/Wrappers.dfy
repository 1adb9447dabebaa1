/** An optional value: the model's stand-in for JavaScript's `null`/"no result". */
module Wrappers {
  datatype Option<+T> = None | Some(value: T)
}
