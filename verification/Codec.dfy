/** The frame codec as code: the encoder, the probe and the prefix decoder, each with its own loops. */
module Codec {
  import opened Options
  import opened Words
  import opened Types
  import opened Frame
  import opened FrameTheorems

  // The extension size loop of the encoder: None when one of its guards rejects.
  method SumExtensions(limits: Limits, exts: seq<Extension>) returns (r: Option<Size>)
    requires limits.Valid()
    ensures r.Some? ==> r.value == ExtensionBytes(exts)
    ensures r.None? ==> ExtensionBytes(exts) > limits.maxExtensionBytes
  {
    var extensionBytes: Size := 0;
    for i := 0 to |exts|
      invariant extensionBytes <= limits.maxExtensionBytes + 4
      invariant extensionBytes + ExtensionBytes(exts[i..]) == ExtensionBytes(exts)
    {
      var size := |exts[i].value|;
      if || size > U16_MAX
         || extensionBytes > limits.maxExtensionBytes
         || size > Minus(limits.maxExtensionBytes, extensionBytes)
         || size > Minus(Minus(SIZE_MAX, extensionBytes), 4)
      {
        return None;
      }
      extensionBytes := Plus(extensionBytes, Plus(4, size));
    }
    return Some(extensionBytes);
  }

  method HeaderBytes(h: FixedHeader) returns (r: Bytes)
    ensures r == WriteHeader(h)
  {
    r := AppendBigEndian([], WIRE_MAGIC, 4);
    assert r == BigEndian(WIRE_MAGIC, 4);
    r := AppendBigEndian(r, h.headerSize, 2);
    r := AppendBigEndian(r, h.flags, 2);
    r := AppendBigEndian(r, h.major, 2);
    r := AppendBigEndian(r, h.minor, 2);
    r := AppendBigEndian(r, h.kind, 4);
    r := AppendBigEndian(r, h.correlationId, 8);
    r := AppendBigEndian(r, h.payloadSize, 4);
    r := AppendBigEndian(r, h.extensionCount, 2);
    r := AppendBigEndian(r, h.reserved, 2);
  }

  method AppendTlv(output: Bytes, e: Extension) returns (r: Bytes)
    ensures r == output + Tlv(e)
  {
    hide BigEndian;
    r := AppendBigEndian(output, e.id, 2);
    r := AppendBigEndian(r, Narrow16(|e.value|), 2);
    r := r + e.value;
  }

  method AppendExtensions(output: Bytes, exts: seq<Extension>) returns (r: Bytes)
    ensures r == output + TlvBytes(exts)
  {
    hide Tlv;
    r := output;
    for i := 0 to |exts|
      invariant r + TlvBytes(exts[i..]) == output + TlvBytes(exts)
    {
      Reassociate(r, Tlv(exts[i]), TlvBytes(exts[i + 1..]));
      assert exts[i..][1..] == exts[i + 1..];
      r := AppendTlv(r, exts[i]);
    }
  }

  /** The encoder succeeds exactly on encodable messages, and then returns their wire image. */
  method Encode(limits: Limits, m: Message) returns (r: Result<Bytes>)
    ensures r.Ok? <==> Encodable(limits, m)
    ensures r.Ok? ==> r.value == Wire(m)
    ensures r.Ok? ==> |r.value| == WIRE_HEADER_SIZE + ExtensionBytes(m.extensions) + |m.payload|
    ensures r.Err? ==> r.error == if limits.Valid() then LimitExceeded else InvalidArgument
  {
    if !limits.Valid() {
      return Err(InvalidArgument);
    }
    if |m.payload| > limits.maxPayloadSize || |m.payload| > U32_MAX {
      return Err(LimitExceeded);
    }
    if |m.extensions| > limits.maxExtensionCount || |m.extensions| > U16_MAX {
      return Err(LimitExceeded);
    }
    var sum := SumExtensions(limits, m.extensions);
    if sum.None? {
      return Err(LimitExceeded);
    }
    var extensionBytes: Size := sum.value;
    if extensionBytes > limits.maxExtensionBytes || extensionBytes > Minus(U16_MAX, WIRE_HEADER_SIZE) {
      return Err(LimitExceeded);
    }
    var headerSize := Plus(WIRE_HEADER_SIZE, extensionBytes);
    if |m.payload| > Minus(SIZE_MAX, headerSize) {
      return Err(LimitExceeded);
    }
    var frameSize := Plus(headerSize, |m.payload|);
    if frameSize > limits.maxFrameSize {
      return Err(LimitExceeded);
    }
    WireLength(m);
    var output := Serialize(m, headerSize);
    return Ok(output);
  }

  // The second half of the encoder: every size field goes through its narrowing cast.
  method Serialize(m: Message, headerSize: Size) returns (output: Bytes)
    requires headerSize == WIRE_HEADER_SIZE + ExtensionBytes(m.extensions)
    ensures output == Wire(m)
  {
    var header := FixedHeader(Narrow16(headerSize), m.flags, m.version.major, m.version.minor, m.kind,
                              m.correlationId, Narrow32(|m.payload|), Narrow16(|m.extensions|), 0);
    output := HeaderBytes(header);
    output := AppendExtensions(output, m.extensions);
    output := output + m.payload;
  }

  /** The validator's cursor loop accepts exactly the headers whose TLV section parses. */
  method ValidateExtensions(header: Bytes, count: nat) returns (valid: bool)
    requires WIRE_HEADER_SIZE <= |header| <= SIZE_MAX
    ensures valid <==> TlvsAt(header, WIRE_HEADER_SIZE, |header|, count).Some?
  {
    ghost var wellFormed := TlvsAt(header, WIRE_HEADER_SIZE, |header|, count).Some?;
    var cursor: Size := WIRE_HEADER_SIZE;
    for index := 0 to count
      invariant WIRE_HEADER_SIZE <= cursor <= |header|
      invariant wellFormed <==> TlvsAt(header, cursor, |header|, count - index).Some?
    {
      if Minus(|header|, cursor) < 4 {
        return false;
      }
      var valueSize := ReadBigEndian(header, Plus(cursor, 2), 2);
      cursor := Plus(cursor, 4);
      if valueSize > Minus(|header|, cursor) {
        return false;
      }
      cursor := Plus(cursor, valueSize);
    }
    return cursor == |header|;
  }

  // One TLV read at the cursor: the body of the decoder's loop.
  method DecodeExtension(input: Bytes, start: Size, end: Size) returns (extension: Extension, cursor: Size)
    requires start + 4 <= end <= |input|
    requires start + 4 + Field(input, start + 2, 2) <= end
    ensures cursor == start + 4 + Field(input, start + 2, 2)
    ensures extension == Extension(Field(input, start, 2), input[start + 4..cursor])
  {
    var id := ReadBigEndian(input, start, 2);
    var size := ReadBigEndian(input, Plus(start, 2), 2);
    ValueFitsWidth(input[start..start + 2]);
    cursor := Plus(start, 4);
    extension := Extension(id, input[cursor..Plus(cursor, size)]);
    cursor := Plus(cursor, size);
  }

  /** The decoder's own cursor loop recovers the extensions that validation found. */
  method DecodeExtensions(input: Bytes, headerSize: Size, count: nat) returns (extensions: seq<Extension>)
    requires WIRE_HEADER_SIZE <= headerSize <= |input|
    requires TlvsAt(input, WIRE_HEADER_SIZE, headerSize, count).Some?
    ensures Some(extensions) == TlvsAt(input, WIRE_HEADER_SIZE, headerSize, count)
  {
    hide Field;
    extensions := [];
    var cursor: Size := WIRE_HEADER_SIZE;
    ghost var rest := TlvsAt(input, WIRE_HEADER_SIZE, headerSize, count).value;
    ghost var all := rest;
    for index := 0 to count
      invariant WIRE_HEADER_SIZE <= cursor <= headerSize
      invariant TlvsAt(input, cursor, headerSize, count - index) == Some(rest)
      invariant all == extensions + rest
    {
      var extension, after := DecodeExtension(input, cursor, headerSize);
      ghost var remaining := TlvsAt(input, after, headerSize, count - index - 1).value;
      assert rest == [extension] + remaining;
      extensions, cursor, rest := extensions + [extension], after, remaining;
    }
    assert rest == [];
    assert extensions + rest == extensions;
  }

  /** The probe as the source runs it: each field read by its own loop, the TLV section by the validator. */
  method Inspect(limits: Limits, input: Bytes) returns (r: Result<FrameProbe>)
    ensures r == Probe(limits, input)
  {
    if !limits.Valid() {
      return Err(InvalidArgument);
    }
    if |input| < 4 {
      return Ok(FrameProbe(Incomplete, 0, WIRE_HEADER_SIZE));
    }
    var magic := ReadBigEndian(input, 0, 4);
    if magic != WIRE_MAGIC {
      return Err(InvalidMagic);
    }
    if |input| < WIRE_HEADER_SIZE {
      return Ok(FrameProbe(Incomplete, 0, WIRE_HEADER_SIZE));
    }
    var headerSize := ReadBigEndian(input, 4, 2);
    var payloadSize := ReadBigEndian(input, 24, 4);
    var extensionCount := ReadBigEndian(input, 28, 2);
    var reserved := ReadBigEndian(input, 30, 2);
    assert headerSize == ReadHeader(input).headerSize && payloadSize == ReadHeader(input).payloadSize;
    assert extensionCount == ReadHeader(input).extensionCount && reserved == ReadHeader(input).reserved;
    if reserved != 0 || headerSize < WIRE_HEADER_SIZE {
      return Err(MalformedFrame);
    }
    if || extensionCount > limits.maxExtensionCount
       || Minus(headerSize, WIRE_HEADER_SIZE) > limits.maxExtensionBytes
       || payloadSize > limits.maxPayloadSize
    {
      return Err(LimitExceeded);
    }
    if payloadSize > Minus(SIZE_MAX, headerSize) {
      return Err(LimitExceeded);
    }
    var frameSize := Plus(headerSize, payloadSize);
    if frameSize > limits.maxFrameSize {
      return Err(LimitExceeded);
    }
    if |input| < headerSize {
      return Ok(FrameProbe(Incomplete, frameSize, frameSize));
    }
    var header := input[..headerSize];
    var valid := ValidateExtensions(header, extensionCount);
    assert header[WIRE_HEADER_SIZE..headerSize] == input[WIRE_HEADER_SIZE..headerSize];
    SameSectionSameTlvs(header, WIRE_HEADER_SIZE, headerSize, input, WIRE_HEADER_SIZE, headerSize, extensionCount);
    if !valid {
      return Err(MalformedFrame);
    }
    if |input| < frameSize {
      return Ok(FrameProbe(Incomplete, frameSize, frameSize));
    }
    return Ok(FrameProbe(Ready, frameSize, frameSize));
  }

  /** The prefix decoder computes `Decoded`. */
  method DecodePrefix(limits: Limits, input: Bytes) returns (r: Result<DecodedFrame>)
    ensures r == Decoded(limits, input)
  {
    var inspected := Inspect(limits, input);
    if inspected.Err? {
      return Err(inspected.error);
    }
    if inspected.value.state != Ready {
      return Err(InsufficientData);
    }
    var headerSize := ReadBigEndian(input, 4, 2);
    var extensionCount := ReadBigEndian(input, 28, 2);
    var extensions := DecodeExtensions(input, headerSize, extensionCount);
    var payload := input[headerSize..inspected.value.frameSize];
    var flags := ReadBigEndian(input, 6, 2);
    var major := ReadBigEndian(input, 8, 2);
    var minor := ReadBigEndian(input, 10, 2);
    var kind := ReadBigEndian(input, 12, 4);
    var correlationId := ReadBigEndian(input, 16, 8);
    assert ReadHeader(input).kind == kind && ReadHeader(input).correlationId == correlationId;
    var message := Message(Version(major, minor), kind, correlationId, payload, flags, extensions);
    return Ok(DecodedFrame(message, inspected.value.frameSize));
  }

  /** The exact decoder computes `Decode`. */
  method DecodeWhole(limits: Limits, input: Bytes) returns (r: Result<Message>)
    ensures r == Decode(limits, input)
  {
    var decoded := DecodePrefix(limits, input);
    if decoded.Err? {
      return Err(decoded.error);
    }
    if decoded.value.consumed != |input| {
      return Err(TrailingData);
    }
    return Ok(decoded.value.message);
  }
}
