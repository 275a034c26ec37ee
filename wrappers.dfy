/** Small shared vocabulary: an optional value (a nullable reference in the
    source) and the octet type used by the byte-level codecs. */
module Wrappers {

  /** `None` stands for a C# `null`. */
  datatype Option<+T> = None | Some(value: T)

  /** A computation that either produces a value or stops with an error. */
  datatype Result<+T, +E> = Success(value: T) | Failure(error: E)

  /** An 8-bit unsigned value, as in a .NET `byte[]`. */
  type byte = x: int | 0 <= x < 256
}
