// Failure-compatible results, after iree_status_t and mlir::FailureOr.
module Status {

  datatype Code = InvalidArgument | OutOfRange | ResourceExhausted | Aborted | Internal | NotFound

  datatype Status = Ok | Error(code: Code)

  datatype Result<+T> = Success(value: T) | Failure(code: Code) {
    predicate IsFailure() {
      Failure?
    }

    function PropagateFailure<U>(): Result<U>
      requires Failure?
    {
      Failure(code)
    }

    function Extract(): T
      requires Success?
    {
      value
    }
  }

  datatype Option<+T> = None | Some(value: T)
}
