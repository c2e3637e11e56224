/** The optional-value datatype used throughout the model. */
module Wrappers {

  /** `None` stands for a value JavaScript would report as `undefined` or `NaN`. */
  datatype Option<+T> = None | Some(value: T)
}
