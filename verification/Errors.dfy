/** The error kinds that decide control flow, and the failure-compatible
    result type every fallible operation of the engine returns. */
module Errors {

  datatype Error =
    | BufferBounds
    | ArithmeticOverflow
    | InvalidPageSize
    | InvalidBufferPoolCapacity
    | KeyAlreadyExists
    | KeyNotFound
    | PayloadTooLarge
    | Io
    | Corruption
    | NoValidMetaPage
    | FileTooSmall
    | UnexpectedPageType
    | InvalidRowEncoding
    | PoolInvariantViolated
  {
    /** How an edit ends that a page has no room for. */
    predicate OutOfRoom() {
      BufferBounds? || ArithmeticOverflow?
    }
  }

  datatype Result<+T> = Ok(value: T) | Err(error: Error) {
    predicate IsFailure() {
      Err?
    }

    function PropagateFailure<U>(): Result<U>
      requires Err?
    {
      Err(error)
    }

    function Extract(): T
      requires Ok?
    {
      value
    }
  }

  datatype Option<+T> = None | Some(value: T)

  datatype Unit = Done
}
