/** The optional value used wherever the C code returns a pointer that may be NULL. */
module Wrappers {

  /** `None` stands for NULL, `Some(v)` for a non-NULL pointer to `v`. */
  datatype Option<+T> = None | Some(value: T)
}
