/** The Option datatype the model uses for results the C code may leave NULL. */
module Wrappers {

  datatype Option<+T> = None | Some(value: T)
}
