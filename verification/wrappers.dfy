/** Optional value shared by the other modules. */
module Wrappers {

  /** Some value, or None where the program has nothing to return. */
  datatype Option<+T> = None | Some(value: T)
}
