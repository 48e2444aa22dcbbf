/** Optional values: the model's stand-in for Java's nullable references. */
module Wrappers {

  /** `None` plays the part of `null`, `Some(v)` a non-null reference to `v`. */
  datatype Option<+T> = None | Some(value: T)
}
