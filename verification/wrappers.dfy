/** The conventional optional value, standing for the source's nullable results and map misses. */
module Wrappers {
  datatype Option<+T> = None | Some(value: T)
}
