/** The engine's exception classes, reduced to one error datatype. */
module Errors {
  import opened Values

  /** The largest 32-bit unsigned value. */
  const UINT_MAX: nat := 0xFFFF_FFFF

  /** The location a LanguageException keeps. Its constructor takes the offset
      as an `unsigned`, so a `size_t` offset is cut to its low 32 bits. */
  function Location(offset: nat): (loc: nat)
    ensures loc <= UINT_MAX
    ensures offset <= UINT_MAX ==> loc == offset
    ensures offset > UINT_MAX ==> loc < offset
  {
    offset % (UINT_MAX + 1)
  }

  /** npos, reported as a location, reaches the user as 2^32 - 1. */
  lemma NposLocation()
    ensures Location(SIZE_MAX) == UINT_MAX
  {
  }

  datatype Error =
      /** ParserException: message, the offending token, the caret offset
          as the exception keeps it (see `Location`). */
    | ParserError(message: string, context: string, location: nat)
      /** TypeError: the expected descriptor and the actual element, or no
          element when the signature is longer than the stack. */
    | TypeError(expected: TypeDesc, actual: Option<Element>)
      /** SyntaxError: message, context and caret offset. */
    | SyntaxError(message: string, context: string, location: nat)
      /** StackOverflowError, carrying the limit that was hit. */
    | StackOverflowError(limit: nat)
    | StackUnderflowError
    | StopError
    | RuntimeError(message: string)
      /** The nesting of defined-function calls exceeded the fuel bound of the
          model (the program would exhaust the host's call stack). */
    | OutOfFuel

  datatype Result<+T> = Ok(value: T) | Err(error: Error) {
    predicate IsFailure() { Err? }
    function PropagateFailure<U>(): Result<U> requires Err? { Err(error) }
    function Extract(): T requires Ok? { value }
  }

  /** The outcome of an operation that returns nothing but may throw. */
  datatype Outcome = Pass | Fail(error: Error) {
    predicate IsFailure() { Fail? }
    function PropagateFailure(): Outcome requires Fail? { this }
  }
}
