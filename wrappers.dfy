/** Option and Result, used for the source's null values and thrown exceptions. */
module Wrappers {
  datatype Option<+T> = None | Some(value: T)

  datatype Result<+T, +E> = Ok(value: T) | Err(error: E)
}

/** The Java exceptions the modelled code throws, as values. */
module Thrown {
  datatype Exception =
    | InvalidParameter        // java.security.InvalidParameterException
    | NoSuchElement           // java.util.NoSuchElementException (Scanner ran out of tokens)
    | InputMismatch           // java.util.InputMismatchException (Scanner.nextInt on a non-int)
    | NumberFormat            // NumberFormatException (Integer.parseInt)
    | IndexOutOfBounds        // String/array/ByteBuffer index out of range
    | NullPointer             // a map lookup that found nothing, then used
    | IllegalArgument         // IllegalArgumentException
    | EndOfFile               // EOFException from a read past the end of the file
    | BadInput                // the bare Exception SlhaFile throws on malformed input
    | Arithmetic              // ArithmeticException (integer division by zero)
}
