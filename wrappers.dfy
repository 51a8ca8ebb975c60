/** The outcome of an operation that may fail; `None` stands for the exception the original raises. */
module Wrappers {

  datatype Option<+T> = None | Some(value: T)
}
