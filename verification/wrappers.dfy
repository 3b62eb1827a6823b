/** Failure-carrying results shared by every component of the model.

    The Java code reports errors by throwing; each exception class that the
    modelled code can throw becomes one constructor of `Error`, and every
    operation that can throw returns a `Result`. */
module Wrappers {

  /** Stand-in for a value that may be absent (a Java `null` or an empty `Optional`). */
  datatype Option<+T> = None | Some(value: T)

  /** The exception classes thrown by the modelled code. */
  datatype Error =
    | IllegalArgument       // java.lang.IllegalArgumentException
    | IllegalState          // java.lang.IllegalStateException
    | UnsupportedOperation  // java.lang.UnsupportedOperationException
    | IndexOutOfBounds      // java.lang.(String)IndexOutOfBoundsException
    | NegativeArraySize     // java.lang.NegativeArraySizeException
    | NoSuchElement        // java.util.NoSuchElementException
    | EmptyStack            // java.util.EmptyStackException
    | LexerFailure          // hr.fer.zemris.bf.lexer.LexerException
    | ParserFailure         // hr.fer.zemris.bf.parser.ParserException

  datatype Result<+T> = Ok(value: T) | Err(error: Error) {
    predicate IsFailure() {
      Err?
    }

    function PropagateFailure<U>(): Result<U>
      requires Err?
    {
      Err(error)
    }

    function Extract(): T
      requires Ok?
    {
      value
    }
  }
}
