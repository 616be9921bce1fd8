/** Option and Result datatypes used by the booking model: `Option` stands in for
    the component's nullable `selectedDesk`, `Result` for an operation that can be
    rejected. */
module Wrappers {

  datatype Option<+T> = None | Some(value: T)

  datatype Result<+R, +E> = Success(value: R) | Failure(error: E)
}
