/** The optional value used for the quiz's `selectedOption` (a number or null). */
module Wrappers {
  datatype Option<+T> = None | Some(value: T)
}
