/** The optional-value datatype used for PHP's `false`-or-value returns. */
module Wrappers {

  datatype Option<+T> = None | Some(value: T)
}
