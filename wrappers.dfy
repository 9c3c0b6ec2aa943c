/** The optional result of a scanner: `Some(n)` is a match of length `n`, `None` no match at all. */
module Wrappers {
  datatype Option<+T> = None | Some(value: T)
}
