/** An optional value: a form field that `FormData.get` may not find. */
module Wrappers {
  datatype Option<+T> = None | Some(value: T)
}
