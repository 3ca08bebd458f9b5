/** Failure-carrying result types shared by the assembler modules. */
module Wrappers {

  /** A value that may be absent: an unknown mnemonic, a blank line, a missing character. */
  datatype Option<+T> = None | Some(value: T)

  /** Either a value or the error that stopped the computation. */
  datatype Result<+R, +E> = Success(value: R) | Failure(error: E)
}
