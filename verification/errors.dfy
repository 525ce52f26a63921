/** Failures of the `.au` feature extractor, and the result type that carries them.

    The source signals some of these with exceptions (`std::runtime_error`,
    `std::invalid_argument`); the others are paths on which it has undefined or
    meaningless behaviour, which the model turns into explicit failures. */
module AuErrors {

  datatype Error =
    | NotAuFile            // the file name's extension is not ".au"
    | BadFileEncoding      // the magic word matches under neither byte order
    | TooManyBytes         // `read_word` asked for more than eight bytes
    | ShiftOverflow        // `read_word` asked for five to eight bytes: an `int` shifted by 32 or more
    | EndOfStream          // a byte was read past the end of the file
    | UnsupportedEncoding  // encoding other than 16-bit linear PCM: the word size would be zero
    | FrameOutOfBounds     // the half-shifted frame of the last chunk runs past the samples
    | NoFrames             // fewer than FFT_SIZE samples: the statistics would divide 0 by 0

  /** Either a value or the error that stopped its computation; usable with `:-`. */
  datatype Result<+T> = Success(value: T) | Failure(error: Error) {

    predicate IsFailure() {
      Failure?
    }

    function PropagateFailure<U>(): Result<U>
      requires Failure?
    {
      Failure(error)
    }

    function Extract(): T
      requires Success?
    {
      value
    }
  }
}
