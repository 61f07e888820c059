/** Option and Result types. The errors stand for the exception classes that json.h throws. */
module Wrappers {

  datatype Option<+T> = None | Some(value: T)

  datatype Error =
    | OutOfRange          // std::out_of_range
    | DomainError         // std::domain_error
    | InvalidArgument     // std::invalid_argument
    | LengthError         // std::length_error
    | AssertionFailed     // a failed assert(...)
    | UndefinedBehaviour  // no exception: an access outside an array

  datatype Result<+T> = Ok(value: T) | Err(error: Error) {

    predicate IsFailure() {
      Err?
    }

    function PropagateFailure<U>(): Result<U>
      requires Err?
    {
      Err(error)
    }

    function Extract(): T
      requires Ok?
    {
      value
    }
  }
}
