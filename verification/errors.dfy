/** Outcomes of fallible operations and the error kinds the field reports.
    The error enums belong to the surrounding field library; only the
    variants this field can produce are listed. */
module Errors {

  datatype Result<T, E> = Ok(value: T) | Err(error: E)

  /** Raised by inversion (and hence division) of zero. */
  datatype FieldError = InvZeroError

  /** Raised by hex parsing. */
  datatype CreationError = InvalidHexString

  /** Raised by fixed-width decoding, one variant per byte order. */
  datatype ByteConversionError = FromBEBytesError | FromLEBytesError

  /** What `deserialize` reports; the library converts a byte-conversion
      failure into this single kind. */
  datatype DeserializationError = FieldFromBytesError
}
