/** The optional-value datatype used wherever the source yields `null` or drops an event. */
module Wrappers {

  datatype Option<+T> = None | Some(value: T)
}
