/** Optional values: the model's reading of `null` / `undefined` in the component. */
module Wrappers {
  datatype Option<+T> = None | Some(value: T)
}
