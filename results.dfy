/** The failures the interpreter's node semantics can report. */
module Results {

  /** `GeneralError` is what the decoders raise when the length guard fails;
      `ValueError` is what Python's `int(...)` raises on a malformed literal. */
  datatype Error = GeneralError | ValueError

  /** The outcome of an operation that either returns a value or raises. */
  datatype Result<T> = Ok(value: T) | Err(error: Error)
}
