/** The optional value used throughout the model: a missing description, a
    read that finds nothing, a dialog with no mail selected. */
module Wrappers {

  datatype Option<+T> = None | Some(value: T)
}
