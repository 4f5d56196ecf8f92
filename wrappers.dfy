/** Optional values: `None` stands for JavaScript's `null` / `undefined` / a thrown parse error. */
module Wrappers {
  datatype Option<+T> = None | Some(value: T)
}
