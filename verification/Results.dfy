/** Option and Result, the stand-ins for null pointers and thrown exceptions. */
module Results {

  datatype Option<+T> = None | Some(value: T)

  /** Why a native routine threw. */
  datatype Error =
    | Truncated            // a read past the end of a stream
    | UnknownField         // a field id the descriptor does not have
    | TypeMismatch         // a field type that is not the descriptor's
    | MissingStream        // no value column left to bind
    | NotString            // a string read from a column of another type
    | LengthMismatch       // a string length that differs from the control stream
    | MissingMagic         // a control stream without its header
    | UnknownControl       // a header naming no control stream
    | MissingControls      // fewer than three control streams
    | Misaligned           // a byte size that is not a multiple of the width
    | UnsupportedKind      // a logical kind outside 1..9
    | UnexpectedLengths    // lengths on a field that is not a string
    | TrailingBytes        // bytes left after the last field
    | OutOfBounds          // a copy that an insufficient bounds check let through
    | TooLarge             // a capacity above the 32-bit limit
    | InvalidSchema        // a descriptor set that cannot be parsed or loaded

  datatype Result<+T> = Ok(value: T) | Err(error: Error) {
    predicate IsFailure() {
      Err?
    }

    function PropagateFailure<U>(): Result<U>
      requires Err?
    {
      Err(error)
    }

    function Extract(): T
      requires Ok?
    {
      value
    }
  }
}
