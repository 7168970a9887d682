/** Optional values: TypeScript's `undefined` and Java's `null`. */
module Wrappers {

  datatype Option<+T> = None | Some(value: T)
}
