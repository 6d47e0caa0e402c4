/**
  The VSP1 frame format: the wire image of a message, and what the incremental probe and the prefix
  and exact decoders return.
  */
module Frame {
  import opened Options
  import opened Words
  import opened Types

  const WIRE_MAGIC: u32 := 0x5653_5031
  const WIRE_HEADER_SIZE: Size := 32

  // ---------- The fixed header ----------

  datatype FixedHeader = FixedHeader(
    headerSize: u16, flags: u16, major: u16, minor: u16, kind: u32, correlationId: u64,
    payloadSize: u32, extensionCount: u16, reserved: u16)

  function WriteHeader(h: FixedHeader): (r: Bytes)
    ensures |r| == WIRE_HEADER_SIZE
  {
    BigEndian(WIRE_MAGIC, 4) + BigEndian(h.headerSize, 2) + BigEndian(h.flags, 2) + BigEndian(h.major, 2)
    + BigEndian(h.minor, 2) + BigEndian(h.kind, 4) + BigEndian(h.correlationId, 8)
    + BigEndian(h.payloadSize, 4) + BigEndian(h.extensionCount, 2) + BigEndian(h.reserved, 2)
  }

  function Field(s: Bytes, offset: nat, width: nat): (r: nat)
    requires offset + width <= |s|
    ensures width == 2 ==> r <= U16_MAX
    ensures width == 4 ==> r <= U32_MAX
    ensures width == 8 ==> r < 0x1_0000_0000_0000_0000
  {
    ValueFitsWidth(s[offset..offset + width]);
    Value(s[offset..offset + width])
  }

  function ReadHeader(s: Bytes): (h: FixedHeader)
    requires |s| >= WIRE_HEADER_SIZE
  {
    FixedHeader(Field(s, 4, 2), Field(s, 6, 2), Field(s, 8, 2), Field(s, 10, 2), Field(s, 12, 4),
                Field(s, 16, 8), Field(s, 24, 4), Field(s, 28, 2), Field(s, 30, 2))
  }

  // ---------- The TLV section ----------

  function Tlv(e: Extension): (r: Bytes)
    ensures |r| == 4 + |e.value|
  {
    BigEndian(e.id, 2) + BigEndian(Narrow16(|e.value|), 2) + e.value
  }

  function TlvBytes(exts: seq<Extension>): (r: Bytes) {
    Flatten(Tlv, exts)
  }

  // The number of bytes a TLV section takes.
  function ExtensionBytes(exts: seq<Extension>): (r: nat) {
    if exts == [] then 0 else 4 + |exts[0].value| + ExtensionBytes(exts[1..])
  }

  // The extensions in input[cursor..end], when that section is exactly `count` TLVs.
  function TlvsAt(input: Bytes, cursor: nat, end: nat, count: nat): (r: Option<seq<Extension>>)
    requires cursor <= end <= |input|
    decreases count
  {
    if count == 0 then
      if cursor == end then Some([]) else None
    else if end - cursor < 4 || Field(input, cursor + 2, 2) > end - (cursor + 4) then
      None
    else
      var next := cursor + 4 + Field(input, cursor + 2, 2);
      match TlvsAt(input, next, end, count - 1)
      case None => None
      case Some(rest) => Some([Extension(Field(input, cursor, 2), input[cursor + 4..next])] + rest)
  }

  // ---------- Encoding ----------

  function HeaderOf(m: Message): (h: FixedHeader) {
    FixedHeader(Narrow16(WIRE_HEADER_SIZE + ExtensionBytes(m.extensions)), m.flags,
                m.version.major, m.version.minor, m.kind, m.correlationId,
                Narrow32(|m.payload|), Narrow16(|m.extensions|), 0)
  }

  // The wire image of a message.
  function Wire(m: Message): (r: Bytes) {
    WriteHeader(HeaderOf(m)) + TlvBytes(m.extensions) + m.payload
  }

  // The messages that fit the limits and the format's own field widths.
  predicate Encodable(limits: Limits, m: Message) {
    && limits.Valid()
    && |m.payload| <= limits.maxPayloadSize
    && |m.extensions| <= limits.maxExtensionCount
    && ExtensionBytes(m.extensions) <= limits.maxExtensionBytes
    && ExtensionBytes(m.extensions) <= U16_MAX - WIRE_HEADER_SIZE
    && WIRE_HEADER_SIZE + ExtensionBytes(m.extensions) + |m.payload| <= limits.maxFrameSize
  }

  lemma WireLength(m: Message)
    ensures |Wire(m)| == WIRE_HEADER_SIZE + ExtensionBytes(m.extensions) + |m.payload|
  {
    TlvLength(m.extensions);
  }

  lemma {:induction false} TlvLength(exts: seq<Extension>)
    ensures |TlvBytes(exts)| == ExtensionBytes(exts)
  {
    if exts != [] {
      TlvLength(exts[1..]);
    }
  }

  // ---------- Probing and decoding ----------

  datatype FrameState = Incomplete | Ready
  datatype FrameProbe = FrameProbe(state: FrameState, frameSize: Size, requiredSize: Size)
  datatype DecodedFrame = DecodedFrame(message: Message, consumed: Size)

  function Probe(limits: Limits, input: Bytes): (r: Result<FrameProbe>) {
    if !limits.Valid() then
      Err(InvalidArgument)
    else if |input| < 4 then
      Ok(FrameProbe(Incomplete, 0, WIRE_HEADER_SIZE))
    else if Field(input, 0, 4) != WIRE_MAGIC then
      Err(InvalidMagic)
    else if |input| < WIRE_HEADER_SIZE then
      Ok(FrameProbe(Incomplete, 0, WIRE_HEADER_SIZE))
    else
      var h := ReadHeader(input);
      if h.reserved != 0 || h.headerSize < WIRE_HEADER_SIZE then
        Err(MalformedFrame)
      else if || h.extensionCount > limits.maxExtensionCount
              || Minus(h.headerSize, WIRE_HEADER_SIZE) > limits.maxExtensionBytes
              || h.payloadSize > limits.maxPayloadSize
      then
        Err(LimitExceeded)
      else if h.payloadSize > Minus(SIZE_MAX, h.headerSize) then
        Err(LimitExceeded)
      else
        var frameSize := Plus(h.headerSize, h.payloadSize);
        if frameSize > limits.maxFrameSize then
          Err(LimitExceeded)
        else if |input| < h.headerSize then
          Ok(FrameProbe(Incomplete, frameSize, frameSize))
        else if TlvsAt(input, WIRE_HEADER_SIZE, h.headerSize, h.extensionCount).None? then
          Err(MalformedFrame)
        else if |input| < frameSize then
          Ok(FrameProbe(Incomplete, frameSize, frameSize))
        else
          Ok(FrameProbe(Ready, frameSize, frameSize))
  }

  predicate IsReady(limits: Limits, input: Bytes) {
    Probe(limits, input).Ok? && Probe(limits, input).value.state == Ready
  }

  predicate IsIncomplete(limits: Limits, input: Bytes) {
    Probe(limits, input).Ok? && Probe(limits, input).value.state == Incomplete
  }

  // The message at the start of an input whose probe is ready.
  function MessageAt(limits: Limits, input: Bytes): (m: Message)
    requires IsReady(limits, input)
  {
    var h := ReadHeader(input);
    Message(Version(h.major, h.minor), h.kind, h.correlationId,
            input[h.headerSize..Probe(limits, input).value.frameSize], h.flags,
            TlvsAt(input, WIRE_HEADER_SIZE, h.headerSize, h.extensionCount).value)
  }

  // What the prefix decoder returns.
  function Decoded(limits: Limits, input: Bytes): (r: Result<DecodedFrame>) {
    match Probe(limits, input)
    case Err(e) => Err(e)
    case Ok(p) =>
      if p.state == Ready then Ok(DecodedFrame(MessageAt(limits, input), p.frameSize))
      else Err(InsufficientData)
  }

  function Decode(limits: Limits, input: Bytes): (r: Result<Message>) {
    match Decoded(limits, input)
    case Err(e) => Err(e)
    case Ok(d) => if d.consumed != |input| then Err(TrailingData) else Ok(d.message)
  }
}
