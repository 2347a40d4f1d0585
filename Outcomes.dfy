// Failure outcomes of the library: fatalError/userError from terror.h and the
// exceptions of texception.h become values instead of aborting the program.
module Outcomes {

  /** The ways an operation of the library can fail. */
  datatype Error =
    | FatalError        // fatalError(): an internal or programming error
    | UserError         // userError(): a wrong command line or unusable file
    | IndexOutOfRange   // TException IndexOutOfRange
    | InvalidRange      // TString::InvalidRange
    | IllegalSize       // TArray::IllegalSize
    | ArrayIsEmpty      // TArray::ArrayIsEmpty
    | StringIsEmpty     // TString::StringIsEmpty
    | InvalidWidth      // TString::InvalidWidth (getFitWords)
    | InvalidPointer    // TAssocArrayIter::InvalidPointer

  datatype Result<T> = Ok(value: T) | Err(error: Error)
  {
    predicate IsFailure() { Err? }
  }

  datatype Option<T> = None | Some(value: T)
}
