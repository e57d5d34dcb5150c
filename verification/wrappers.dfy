/** Optional values, results and the .NET exceptions the modelled code can raise. */
module Wrappers {

  /** A value that may be absent; `None` plays the role of a C# `null` reference. */
  datatype Option<+T> = None | Some(value: T)

  /** The outcome of an operation that either produces a value or throws. */
  datatype Result<+R, +E> = Success(value: R) | Failure(error: E)

  /** The exceptions the memory-access layer can throw on its own account. */
  datatype Exception =
    | NullReference   // a member of the (null) attached process is dereferenced
    | Overflow        // a byte array is allocated with a negative length
}
