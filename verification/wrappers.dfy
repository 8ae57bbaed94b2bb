/** The optional value both containers return from `pop` and from their cursors. */
module Wrappers {

  /** `Option<T>`: either a value, or the absent result of an operation that has
      nothing to produce (popping an empty container, advancing an exhausted cursor). */
  datatype Option<+T> = None | Some(value: T)
}
