/** The optional value used where the source yields NaN instead of a number. */
module Wrappers {

  datatype Option<+T> = None | Some(value: T)
}
