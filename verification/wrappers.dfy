/** The optional-value datatype the rest of the model uses for parses that can fail. */
module Wrappers {

  datatype Option<+T> = None | Some(value: T)
}
