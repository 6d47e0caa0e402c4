/** The protocol's value domain: messages, limits, errors. */
module Types {
  import opened Words

  datatype ErrorCode =
    | InvalidArgument
    | LimitExceeded
    | InsufficientData
    | InvalidMagic
    | MalformedFrame
    | InvalidUtf8
    | TrailingData

  datatype Result<+T> = Ok(value: T) | Err(error: ErrorCode)

  datatype Version = Version(major: u16, minor: u16)
  datatype Extension = Extension(id: u16, value: Bytes)

  // Flags are kept as the raw 16-bit word: unknown bits are opaque and must survive.
  datatype Message = Message(
    version: Version, kind: u32, correlationId: u64, payload: Bytes, flags: u16, extensions: seq<Extension>)

  datatype Limits = Limits(
    maxPayloadSize: Size, maxExtensionCount: Size, maxExtensionBytes: Size,
    maxFrameSize: Size, maxBufferedBytes: Size)
  {
    predicate Valid() {
      && maxExtensionCount <= U16_MAX
      && maxExtensionBytes <= U16_MAX
      && maxPayloadSize <= U32_MAX
      && maxFrameSize >= 32
      && maxPayloadSize <= Minus(maxFrameSize, 32)
      && maxBufferedBytes >= maxFrameSize
    }
  }
}
