/** The optional value returned by a search: a match's captured groups, or nothing. */
module Wrappers {

  datatype Option<+T> = None | Some(value: T)
}
