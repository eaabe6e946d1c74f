/** The ways a call into the reader can fail, and the result wrappers that carry them. */
module EmaErrors {

  /** One constructor per exception the reader lets escape. */
  datatype Error =
    | UnknownSpeaker(speaker: string)   // the ValueError raised while choosing the channel map
    | HeaderSizeUnbound                 // fewer than two lines: `header_size` is never assigned
    | NotAnInteger(text: string)        // int() rejects the stripped second line
    | NegativeOffset(offset: int)       // np.fromfile cannot seek before the start of the file
    | NegativeDimensions                // the header claims to end 4 or more bytes past the file
    | ReshapeMismatch(cells: nat)       // the payload is not a whole number of 112-cell frames
    | KeyError(sensor: string)          // sensor missing from the channel map
    | ValueNotInList(value: string)     // list.index finds no such value kind
    | IndexError(index: int)            // column index outside the 112-wide frame

  datatype Result<T> = Success(value: T) | Failure(error: Error)

  datatype Option<T> = None | Some(value: T)

  /** The outcome of a step run for its effect on an object. */
  datatype Outcome = Pass | Fail(error: Error)
}
