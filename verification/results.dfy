/** Outcomes of the helpers: a value, or the error that the helper (or a library call
    inside it) throws. */
module Results {

  /** The exceptions the helpers can raise. Only NotAHexString is thrown by the helpers
      themselves; the others are raised by the ethers library calls they make. */
  datatype Error =
    | NotAHexString(message: string)  // getSignatureParameters' own check
    | InvalidBigNumberString          // BigNumber.from on a string that is no number literal
    | NumericOverflow                 // BigNumber.from(number) outside the safe range, or toNumber
    | NegativePower                   // BigNumber.pow with a negative exponent
    | InvalidHexString                // hexZeroPad given a string that is not a hex string
    | ValueOutOfRange                 // hexZeroPad given a value longer than the padded width
    | InvalidUtf8String               // toUtf8Bytes on an unpaired high surrogate
    | DivisionByZero                  // BigNumber.div by zero

  datatype Result<+T> = Ok(value: T) | Err(error: Error) {
    predicate IsFailure() { Err? }

    function PropagateFailure<U>(): Result<U>
      requires Err?
    {
      Err(error)
    }

    function Extract(): T
      requires Ok?
    {
      value
    }
  }

  datatype Option<+T> = None | Some(value: T)
}
