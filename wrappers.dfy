/** Option and Result values standing for the library's nullable references
    and for the .NET exceptions its members throw. */
module Wrappers {

  /** A nullable reference or an optional argument: None stands for null. */
  datatype Option<+T> = None | Some(value: T) {
    function GetOr(default: T): T {
      match this
      case Some(v) => v
      case None => default
    }
  }

  /** The .NET exception kinds the modelled members throw. */
  datatype Exception =
    | ArgumentNull(paramName: string)
    | ArgumentOutOfRange
    | ArgumentError(message: string)
    | NotSupported
    | NotImplemented
    | KeyNotFound
    | ObjectDisposed(message: string)
    | InvalidOperation
    | InvalidData(message: string)
    | Format
    | Overflow
    | CryptographicError
    | Raised(message: string)

  /** The outcome of a member that either returns a value or throws. */
  datatype Result<+T> = Success(value: T) | Failure(error: Exception) {
    predicate IsFailure() {
      Failure?
    }

    function PropagateFailure<U>(): Result<U>
      requires Failure?
    {
      Failure(error)
    }

    function Extract(): T
      requires Success?
    {
      value
    }
  }

  /** The outcome of a void member: it returns, or it throws. */
  datatype Outcome = Pass | Fail(error: Exception) {
    predicate IsFailure() {
      Fail?
    }

    function PropagateFailure<U>(): Result<U>
      requires Fail?
    {
      Failure(error)
    }
  }

  function Min(a: int, b: int): int {
    if a <= b then a else b
  }

  function Max(a: int, b: int): int {
    if a <= b then b else a
  }

  /** A dictionary's enumeration order: `listing` visits every key of
      `records` exactly once. */
  predicate IsListing<K, T>(listing: seq<K>, records: map<K, T>) {
    && (forall i | 0 <= i < |listing| :: listing[i] in records)
    && (forall k | k in records :: k in listing)
    && (forall i, j | 0 <= i < j < |listing| :: listing[i] != listing[j])
  }
}
