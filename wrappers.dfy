/** Option and Result, the two failure-carrying datatypes the scripts' None returns and
    raised exceptions are modelled with. */
module Wrappers {

  datatype Option<+T> = None | Some(value: T)

  datatype Result<+T, +E> = Success(value: T) | Failure(error: E)
}
