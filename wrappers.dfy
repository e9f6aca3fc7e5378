/** The optional-value datatype shared by the whole model.  `None` stands for
    JavaScript's `null`/`undefined` and, for numbers parsed from text, for `NaN`. */
module Wrappers {

  datatype Option<+T> = None | Some(value: T)
}
