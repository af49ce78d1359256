/** The usual optional-value datatype, used where a handler may decline to act. */
module Wrappers {

  datatype Option<+T> = None | Some(value: T)

}
