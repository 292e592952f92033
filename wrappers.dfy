/** The optional value that stands in for PHP's `null` and for a capture group that did not take part in a match. */
module Wrappers {
  datatype Option<+T> = None | Some(value: T)
}
