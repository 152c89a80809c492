/** The Option datatype used to say whether a raw memory slot holds a live element. */
module Wrappers {

  /** `None` is a slot of uninitialised raw memory; `Some(v)` is a slot holding the live element `v`. */
  datatype Option<+T> = None | Some(value: T)
}
