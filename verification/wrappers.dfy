/** Failure-compatible results and the library's error kinds. */
module Wrappers {

  datatype Option<+T> = None | Some(value: T)

  /** The error variants of the library (sbv2_core/src/error.rs), plus `Panic`:
      a failed `assert!`, an `unwrap` of `None`, an out-of-range index or a
      `usize` underflow aborts the call, and the model records that as an
      error value so that contracts can say exactly when it happens. */
  datatype Error =
    | ValueError(message: string)
    | ModelNotFoundError(name: string)
    | OrtError
    | NdArrayError
    | SerdeJsonError
    | IoError
    | TokenizerError
    | DecodeError
    | Panic(reason: string)

  datatype Result<+T> = Ok(value: T) | Err(error: Error) {

    predicate IsFailure() {
      Err?
    }

    function PropagateFailure<U>(): Result<U>
      requires Err?
    {
      Err(error)
    }

    function Extract(): T
      requires Ok?
    {
      value
    }
  }
}
