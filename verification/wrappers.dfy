/** The optional value used wherever the simulator may produce nothing. */
module Wrappers {

  datatype Option<+T> = None | Some(value: T)
}
