/** Shared vocabulary of the transcription model: the exceptions the Python
    code can raise, a result type carrying them, and two small helpers. */
module Common {

  /** The failures the transcription core can end in. */
  datatype Error =
    | InvalidReferenceNote  // ValueError: the reference note must be a power of 2
    | ZeroDivision          // ZeroDivisionError from a division by a zero tempo or reference note
    | IndexError            // an index past the end of the metronome or of the onset list
    | ZeroRangeStep         // ValueError: range() with a step of zero

  datatype Result<T> = Ok(value: T) | Err(error: Error)

  datatype Option<T> = None | Some(value: T)

  function Abs(x: real): (a: real)
    ensures a >= 0.0
    ensures a == x || a == -x
  {
    if x < 0.0 then -x else x
  }

  /** Python's `xs[-1]`. */
  function Last<T>(xs: seq<T>): T
    requires xs != []
  {
    xs[|xs| - 1]
  }
}
