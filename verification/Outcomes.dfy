/** The exceptions the library throws, as values. */
module Outcomes {
  datatype Error =
    | NegativeResult
    | DecrementOfZero
    | SameVariable
    | OutputsAliased
    | DivisionByZero
    | PathologicalShift
    | CommonFactor
    | BadSign
    | BaseTooSmall
    | BaseTooLarge
    | DigitTooLarge
    | BadSymbol
    | TooBigForType
    // not an exception: the model stopped following a loop that had not returned
    | StillRunning

  datatype Outcome = Pass | Fail(error: Error)

  datatype Result<+T> = Ok(value: T) | Err(error: Error)
}
