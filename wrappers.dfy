/** The absent-or-present value used for Python calls that may raise. */
module Wrappers {

  /** `None` stands for the call raising `ValueError`; `Some(v)` for a normal return of `v`. */
  datatype Option<+T> = None | Some(value: T)
}
