/** Optional values, the .NET exceptions the console code can raise, and a
    failure-compatible result type carrying one of them. */
module Results {

  datatype Option<T> = None | Some(value: T)

  /** The exceptions thrown (and not caught) by the modelled code. */
  datatype Fault =
    | FormatError         // System.FormatException: a numeral that does not parse
    | OverflowError       // System.OverflowException: a numeral out of range, or a negative array length
    | InvalidCast         // System.InvalidCastException: Convert.ChangeType to an unsupported type
    | IndexOutOfRange     // System.IndexOutOfRangeException: an array index out of bounds
    | ArgumentOutOfRange  // System.ArgumentOutOfRangeException: a List index or copy offset out of bounds
    | ArgumentError       // System.ArgumentException: Array.Copy past the end of the source
    | NullReference       // System.NullReferenceException

  datatype Result<T> = Success(value: T) | Failure(error: Fault) {

    predicate IsFailure() {
      Failure?
    }

    function PropagateFailure<U>(): Result<U>
      requires Failure?
    {
      Failure(error)
    }

    function Extract(): T
      requires Success?
    {
      value
    }
  }
}
