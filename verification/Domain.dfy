/** The vocabulary the repositories share: optional values, results and error codes. */
module Domain {

  datatype Option<+T> = None | Some(value: T) {
    function GetOr(default: T): T {
      match this
      case Some(v) => v
      case None => default
    }
  }

  datatype ErrorCode =
    | InvalidArgument
    | NotFound
    | Conflict
    | RevisionConflict
    | ContentConflict
    | LeaseConflict
    | PreconditionFailed
    | Internal

  datatype Result<+T> = Ok(value: T) | Err(code: ErrorCode) {
    predicate IsFailure() {
      Err?
    }

    function PropagateFailure<U>(): Result<U>
      requires Err?
    {
      Err(code)
    }

    function Extract(): T
      requires Ok?
    {
      value
    }
  }


  const U16: nat := 0x1_0000
  const U32: nat := 0x1_0000_0000
  const I63: nat := 0x8000_0000_0000_0000
  const U64: nat := 0x1_0000_0000_0000_0000
}
