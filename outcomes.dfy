/** The .NET exceptions the modelled code can raise, and the result types
    that carry them in place of a throw. */
module Outcomes {

  /** The exceptions raised by the library calls the core makes. */
  datatype Exception =
    | NullReference              // a member access on an unallocated list
    | ArgumentOutOfRange         // List.GetRange with a negative index or count
    | Argument                   // List.GetRange with a range past the end
    | DuplicateKey(key: string)  // Dictionary.Add with a key already present

  /** A reference that is either allocated (Some) or still null (None). */
  datatype Option<+T> = None | Some(value: T)

  /** The value of a call that either returns or throws. */
  datatype Result<+T> = Success(value: T) | Failure(error: Exception)

  /** The outcome of a call that returns nothing or throws. */
  datatype Outcome = Pass | Fail(error: Exception)
}
