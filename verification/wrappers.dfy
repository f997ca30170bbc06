/** The Some/None datatype the rest of the model uses for values that may be absent. */
module Wrappers {

  datatype Option<+T> = None | Some(value: T)
}
