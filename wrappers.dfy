/** The optional-value wrapper used throughout the model. */
module Wrappers {

  /** `None` stands for an absent value; for a parsed number it stands for NaN. */
  datatype Option<+T> = None | Some(value: T)
}
