/** The optional-value type used throughout the model in place of Python's `None`. */
module Wrappers {

  /** `None` stands for an absent key or a Python `None`; `Some(v)` for a present value. */
  datatype Option<+T> = None | Some(value: T)
}
