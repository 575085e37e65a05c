/** Small value wrappers shared by the other modules. */
module Basics {

  /** A value that may be missing: a failed parse, a date `replace` that raises. */
  datatype Option<T> = None | Some(value: T)
}
