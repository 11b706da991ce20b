/** The exceptions the source throws, as values. Every operation that can
    throw returns a Result; `:-` plays the part of exception propagation. */
module Outcomes {

  /** The failure kinds of the codecs; each names the .NET exception or the
      check that raises it in the source. */
  datatype Error =
    | EndOfStream                        // a read ran past the end of the stream
    | BadMagic                           // EnsureMagicOrThrow
    | BadFileType                        // IOException("Bad FileType")
    | BadFileVersion                     // IOException("Bad FileVersion")
    | PositionMismatch(expected: int, actual: int)   // EnsurePositionOrThrow
    | NonZeroPadding                     // EnsureZeroesOrThrow
    | NegativeCount                      // array or capacity of negative length
    | UnsupportedChunk(chunkType: int, version: int) // NotSupportedException in the registry
    | NotSupported                       // NotSupportedException of a fixed-size record
    | NotImplemented                     // NotImplementedException
    | BadExpectedSize                    // IOException of a fixed-size record
    | ArgumentOutOfRange                 // ArgumentOutOfRangeException
    | DuplicateKey(id: int)              // Dictionary.Add on an existing key
    | SizeMismatch(id: int)              // declared size differs from WrittenSize
    | LayoutMismatch                     // writer position differs from a chunk offset
    | RoundTripMismatch                  // re-encoding differs outside the ignore zones
    | LengthMismatch                     // re-encoding has a different length
    | DivideByZero                       // integer division by zero
    | Overflow                           // OverflowException of checked arithmetic

  datatype Result<+T> = Success(value: T) | Failure(error: Error) {
    predicate IsFailure() { Failure? }

    function PropagateFailure<U>(): Result<U>
      requires Failure?
    {
      Failure(error)
    }

    function Extract(): T
      requires Success?
    {
      value
    }
  }

  datatype Option<+T> = None | Some(value: T)

  /** The outcome of an operation that returns nothing. */
  type Status = Result<()>

  const Done: Status := Success(())

  /** Fails with `e` unless `cond` holds. */
  function Need(cond: bool, e: Error): (r: Status)
    ensures r.Success? <==> cond
  {
    if cond then Done else Failure(e)
  }
}
