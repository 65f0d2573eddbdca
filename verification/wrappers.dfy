/** The optional value used for the one failure the core has: a line that
    does not hold enough fields to make an observation. */
module Wrappers {

  datatype Option<+T> = None | Some(value: T)
}
