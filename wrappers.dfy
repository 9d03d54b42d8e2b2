/** Small failure-carrying datatypes shared by the import model, and the .NET
    exceptions that the modelled code lets escape to its caller. */
module Wrappers {

  datatype Option<+T> = None | Some(value: T) {
    /** The wrapped value, or `default` when there is none (the shape of
        `int.TryParse`, which leaves its out-parameter at 0 on failure). */
    function GetOr(default: T): T {
      match this
      case Some(v) => v
      case None => default
    }
  }

  datatype Result<+T, +E> = Success(value: T) | Failure(error: E)

  /** An exception that leaves a modelled operation. */
  datatype Raised =
    | InvalidOperation(message: string)   // System.InvalidOperationException
    | OperationCanceled                   // thrown by CancellationToken.ThrowIfCancellationRequested
    | NullReference                       // System.NullReferenceException
    | IndexOutOfRange                     // System.IndexOutOfRangeException

  /** How a call ends: it returns a value or it throws. */
  datatype Outcome<+T> = Returned(value: T) | Threw(error: Raised)
}
