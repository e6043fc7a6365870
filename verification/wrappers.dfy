/** Failure-compatible wrapper used where the modelled code either produces a
    value or raises an exception. */
module Wrappers {

  /** `None` stands for a thrown exception, `Some(v)` for a normal result `v`. */
  datatype Option<+T> = None | Some(value: T)
}
