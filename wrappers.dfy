/** The "no element" result that aghp_get signals with NULL. */
module Wrappers {

  datatype Option<+T> = None | Some(value: T)
}
