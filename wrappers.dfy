/** The optional value used for a cell that may hold no number (a NaN in the table). */
module Wrappers {

  datatype Option<+T> = None | Some(value: T)
}
