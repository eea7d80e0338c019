/** Failure values shared by the parsing modules. */
module Outcomes {

  /** The .NET exceptions the parsing code can raise. */
  datatype Exception =
    | DivideByZero        // integer division by a zero count of ';'
    | Overflow            // an array dimension that is negative
    | ArgumentOutOfRange  // List<T> indexer or RemoveAt outside [0, Count)
    | IndexOutOfRange     // array element access outside the array
    | Format              // double.Parse of a token that is not a number

  /** A value, or the exception that interrupted its computation. */
  datatype Result<T> = Ok(value: T) | Err(error: Exception)

  datatype Option<T> = None | Some(value: T)
}
