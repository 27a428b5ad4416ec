/** Results of the generated C functions: a value, or one of the runtime's error classes. */
module Wrappers {

  datatype Option<+T> = None | Some(value: T)

  /** The error classes the generated code returns; their numeric codes are not modelled. */
  datatype Error = ErrRange | ErrType | ErrInvalid | ErrOom

  datatype Result<+T> = Success(value: T) | Failure(error: Error)
  {
    predicate IsFailure() {
      Failure?
    }

    function PropagateFailure<U>(): Result<U>
      requires Failure?
    {
      Failure(error)
    }

    function Extract(): T
      requires Success?
    {
      value
    }
  }
}
