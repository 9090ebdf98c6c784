/** Failure-carrying results shared by the buffer, header and codec modules. */
module Wrappers {

  /** An optional value. */
  datatype Option<+T> = None | Some(value: T)

  /** Either a value or the error that prevented producing it. */
  datatype Result<+T, +E> = Ok(value: T) | Err(error: E)
}

/** The failures of packing a buffer, unpacking a segment and rebuilding an array. */
module Errors {

  /** Why packing a buffer produced no bytes at all. */
  datatype PackError =
    | InvalidBufferShape   // item size, extents and strides do not describe bytes inside the buffer
    | LengthOverflow       // more than 2^32 - 1 payload bytes: no header can express the length

  /** Why a byte string is not one complete str/bin segment. */
  datatype UnpackError =
    | Truncated            // the header, prefix or payload stops early
    | ExtraData            // bytes remain after the segment
    | UnsupportedFormat    // the first byte is not a str or bin header this model reads

  /** Why bytes cannot become an array of fixed-size items. */
  datatype ArrayError = NotMultipleOfItemSize

  /** Why a view cannot be recast to another shape. */
  datatype CastError = CastRefused
}
