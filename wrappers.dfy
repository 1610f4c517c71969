/** The optional-value datatype the rest of the model uses in place of
    JavaScript's `null`. */
module Wrappers {

  datatype Option<+T> = None | Some(value: T)
}
