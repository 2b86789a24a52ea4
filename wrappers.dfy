/** Optional values and the failures the modelled Python code raises by itself. */
module Wrappers {

  /** A value that may be absent: Python's `None` or a missing dictionary key. */
  datatype Option<+T> = None | Some(value: T) {
    /** Python's `d.get(key, default)` once the lookup has been made. */
    function GetOr(default: T): T {
      if Some? then value else default
    }
  }

  /** The exceptions raised by the pipeline's own code (those of external services are inputs). */
  datatype Error =
    | ZeroDivision        // a ratio whose denominator is a zero duration, length or count
    | InvalidDuration     // ValueError("Invalid original content duration")
    | UnboundFlag         // `use_sequential_timing` read before any assignment
    | MissingAlternative  // IndexError: a pronunciation item with no alternatives
    | MissingTranscript   // IndexError: a transcription result with no transcripts
    | JobFailed           // Exception("Transcription job failed: ...")

  /** The outcome of a call that either returns a value or raises one of the errors above. */
  datatype Result<+T> = Ok(value: T) | Err(error: Error)
}
