/** Results and the error values of `src/error.rs`; error texts are reduced to what distinguishes them. */
module Errors {

  datatype Option<+T> = None | Some(value: T)

  datatype Field = KeyField | ValueField | IndexKeyField

  datatype Corruption =
    | UnknownOperation(op: nat)
    | KeyLengthImplausible(len: nat)
    | ValueLengthImplausible(len: nat)
    | DeleteWithValue

  datatype Error =
    | TruncatedRecord(needed: nat, available: nat)
    | CorruptRecord(reason: Corruption)
    | ChecksumMismatch(expected: nat, actual: nat)
    | RecordTooLarge(field: Field, len: nat)
    | InvalidSegmentFile(what: string)
    | Other(what: string)

  datatype Result<+T> = Ok(value: T) | Err(error: Error) {
    predicate IsFailure() {
      Err?
    }

    function PropagateFailure<U>(): Result<U>
      requires Err?
    {
      Err(error)
    }

    function Extract(): T
      requires Ok?
    {
      value
    }
  }
}
