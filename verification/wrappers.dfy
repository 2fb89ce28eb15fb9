/** The Option type that stands for a Python value or the exception that replaces it. */
module Wrappers {

  datatype Option<+T> = None | Some(value: T)
}
