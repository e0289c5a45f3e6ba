/** Failure-compatible wrappers shared by the dictionary loader and the
    BEJ decoder. The C code reports every failure as a negative return
    code; the model keeps a failure kind and maps it back to that code. */
module Results {

  /** Why a read or a decode step failed. */
  datatype Error =
    | Truncated          // a read would pass the end of the buffer
    | BadNnint           // an nnint length byte above 8
    | BadLength          // a scalar whose declared length is not allowed
    | LengthMismatch     // a Real that did not consume its declared length
    | UnsupportedFormat  // a format nibble the decoder has no case for
    | BadSchemaClass     // the payload header's schema class is not 0 or 1
  {
    /** The return code the C function reports for this failure. */
    function Code(): int {
      if BadSchemaClass? then -2 else -1
    }
  }

  datatype Result<+T> = Ok(value: T) | Err(error: Error) {
    predicate IsFailure() {
      Err?
    }

    function PropagateFailure<U>(): Result<U>
      requires Err?
    {
      Err(error)
    }

    function Extract(): T
      requires Ok?
    {
      value
    }
  }

  datatype Option<+T> = None | Some(value: T)
}
