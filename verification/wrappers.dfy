/** The optional value used where the page's code reads `null` or finds nothing. */
module Wrappers {

  datatype Option<+T> = None | Some(value: T)
}
