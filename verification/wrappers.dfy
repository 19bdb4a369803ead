/** Failure-carrying wrapper used for inputs that the registry's handlers may
    fail to obtain: a path id that does not parse, a body that does not decode. */
module Wrappers {

  datatype Option<+T> = None | Some(value: T)
}
