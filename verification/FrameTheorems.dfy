/**
  What the frame codec guarantees: encoder and decoder are inverse to each other, verdicts on a
  prefix are final, and frames are prefix-free.
  */
module FrameTheorems {
  import opened Options
  import opened Words
  import opened Types
  import opened Frame

  // ---------- The fixed header and its bytes ----------

  // The documented layout: field by field, where each sits in the 32 header bytes.
  lemma HeaderLayout(h: FixedHeader)
    ensures var w := WriteHeader(h);
            && w[0..4] == BigEndian(WIRE_MAGIC, 4)
            && w[4..6] == BigEndian(h.headerSize, 2)
            && w[6..8] == BigEndian(h.flags, 2)
            && w[8..10] == BigEndian(h.major, 2)
            && w[10..12] == BigEndian(h.minor, 2)
            && w[12..16] == BigEndian(h.kind, 4)
            && w[16..24] == BigEndian(h.correlationId, 8)
            && w[24..28] == BigEndian(h.payloadSize, 4)
            && w[28..30] == BigEndian(h.extensionCount, 2)
            && w[30..32] == BigEndian(h.reserved, 2)
  {
  }

  lemma FieldOfBigEndian(s: Bytes, offset: nat, width: nat, v: nat)
    requires offset + width <= |s| && s[offset..offset + width] == BigEndian(v, width)
    requires v < Pow256(width)
    ensures Field(s, offset, width) == v
  {
    ValueOfBigEndian(v, width);
  }

  lemma FieldInPrefix(s: Bytes, tail: Bytes, offset: nat, width: nat)
    requires offset + width <= |s|
    ensures Field(s + tail, offset, width) == Field(s, offset, width)
  {
    assert (s + tail)[offset..offset + width] == s[offset..offset + width];
  }

  lemma HeaderInPrefix(s: Bytes, tail: Bytes)
    requires |s| >= WIRE_HEADER_SIZE
    ensures ReadHeader(s + tail) == ReadHeader(s)
    ensures Field(s + tail, 0, 4) == Field(s, 0, 4)
  {
    FieldInPrefix(s, tail, 0, 4);
    FieldInPrefix(s, tail, 4, 2);
    FieldInPrefix(s, tail, 6, 2);
    FieldInPrefix(s, tail, 8, 2);
    FieldInPrefix(s, tail, 10, 2);
    FieldInPrefix(s, tail, 12, 4);
    FieldInPrefix(s, tail, 16, 8);
    FieldInPrefix(s, tail, 24, 4);
    FieldInPrefix(s, tail, 28, 2);
    FieldInPrefix(s, tail, 30, 2);
  }

  lemma ReadOfWrite(h: FixedHeader)
    ensures ReadHeader(WriteHeader(h)) == h
    ensures Field(WriteHeader(h), 0, 4) == WIRE_MAGIC
  {
    var w := WriteHeader(h);
    HeaderLayout(h);
    Pow256Values();
    FieldOfBigEndian(w, 0, 4, WIRE_MAGIC);
    FieldOfBigEndian(w, 4, 2, h.headerSize);
    FieldOfBigEndian(w, 6, 2, h.flags);
    FieldOfBigEndian(w, 8, 2, h.major);
    FieldOfBigEndian(w, 10, 2, h.minor);
    FieldOfBigEndian(w, 12, 4, h.kind);
    FieldOfBigEndian(w, 16, 8, h.correlationId);
    FieldOfBigEndian(w, 24, 4, h.payloadSize);
    FieldOfBigEndian(w, 28, 2, h.extensionCount);
    FieldOfBigEndian(w, 30, 2, h.reserved);
  }

  // The width bytes at offset are determined by the field they spell.
  lemma SpelledBy(s: Bytes, offset: nat, width: nat)
    requires offset + width <= |s|
    ensures s[offset..offset + width] == BigEndian(Field(s, offset, width), width)
  {
    BigEndianOfValue(s[offset..offset + width]);
  }

  lemma WriteOfRead(s: Bytes)
    requires |s| >= WIRE_HEADER_SIZE && Field(s, 0, 4) == WIRE_MAGIC
    ensures WriteHeader(ReadHeader(s)) == s[..WIRE_HEADER_SIZE]
  {
    hide Field, BigEndian;
    SpelledBy(s, 0, 4);
    SpelledBy(s, 4, 2);
    SpelledBy(s, 6, 2);
    SpelledBy(s, 8, 2);
    SpelledBy(s, 10, 2);
    SpelledBy(s, 12, 4);
    SpelledBy(s, 16, 8);
    SpelledBy(s, 24, 4);
    SpelledBy(s, 28, 2);
    SpelledBy(s, 30, 2);
    JoinSlices(s, 0, 4, 6);
    JoinSlices(s, 0, 6, 8);
    JoinSlices(s, 0, 8, 10);
    JoinSlices(s, 0, 10, 12);
    JoinSlices(s, 0, 12, 16);
    JoinSlices(s, 0, 16, 24);
    JoinSlices(s, 0, 24, 28);
    JoinSlices(s, 0, 28, 30);
    JoinSlices(s, 0, 30, 32);
    assert s[..WIRE_HEADER_SIZE] == s[0..32];
  }

  // ---------- The TLV section and its bytes ----------

  ghost predicate ValuesFit(exts: seq<Extension>) {
    forall e :: e in exts ==> |e.value| <= U16_MAX
  }

  lemma {:induction false} SmallSectionFits(exts: seq<Extension>)
    requires ExtensionBytes(exts) <= U16_MAX
    ensures ValuesFit(exts)
  {
    if exts != [] {
      SmallSectionFits(exts[1..]);
      assert exts == [exts[0]] + exts[1..];
    }
  }

  lemma TlvAtStart(input: Bytes, cursor: nat, e: Extension)
    requires |e.value| <= U16_MAX && cursor + 4 + |e.value| <= |input|
    requires input[cursor..cursor + 4 + |e.value|] == Tlv(e)
    ensures Field(input, cursor, 2) == e.id
    ensures Field(input, cursor + 2, 2) == |e.value|
    ensures input[cursor + 4..cursor + 4 + |e.value|] == e.value
  {
    var end := cursor + 4 + |e.value|;
    SliceOfSlice(input, cursor, end, 0, 2);
    SliceOfSlice(input, cursor, end, 2, 4);
    SliceOfSlice(input, cursor, end, 4, 4 + |e.value|);
    assert Tlv(e)[0..2] == BigEndian(e.id, 2) && Tlv(e)[2..4] == BigEndian(|e.value|, 2);
    Pow256Values();
    FieldOfBigEndian(input, cursor, 2, e.id);
    FieldOfBigEndian(input, cursor + 2, 2, |e.value|);
  }

  /** Decoding a TLV section recovers its extensions, in order. */
  lemma {:induction false} TlvsOfBytes(input: Bytes, cursor: nat, end: nat, exts: seq<Extension>)
    requires cursor <= end <= |input| && input[cursor..end] == TlvBytes(exts)
    requires ValuesFit(exts)
    ensures TlvsAt(input, cursor, end, |exts|) == Some(exts)
    decreases |exts|
  {
    hide Field, Tlv;
    if exts != [] {
      SplitSlice(input, cursor, end, Tlv(exts[0]), TlvBytes(exts[1..]));
      TlvAtStart(input, cursor, exts[0]);
      TlvsOfBytes(input, cursor + |Tlv(exts[0])|, end, exts[1..]);
      assert exts == [exts[0]] + exts[1..];
    }
  }

  // Conversely, the bytes of one TLV spell the extension read from them.
  lemma TlvSpelled(input: Bytes, cursor: nat)
    requires cursor + 4 <= |input| && cursor + 4 + Field(input, cursor + 2, 2) <= |input|
    ensures var next := cursor + 4 + Field(input, cursor + 2, 2);
            Tlv(Extension(Field(input, cursor, 2), input[cursor + 4..next])) == input[cursor..next]
  {
    hide Field, BigEndian;
    SpelledBy(input, cursor, 2);
    SpelledBy(input, cursor + 2, 2);
    JoinSlices(input, cursor, cursor + 2, cursor + 4);
    JoinSlices(input, cursor, cursor + 4, cursor + 4 + Field(input, cursor + 2, 2));
  }

  /** A section that decodes is the encoding of what it decodes to. */
  lemma {:induction false} BytesOfTlvs(input: Bytes, cursor: nat, end: nat, count: nat)
    requires cursor <= end <= |input| && TlvsAt(input, cursor, end, count).Some?
    ensures var exts := TlvsAt(input, cursor, end, count).value;
            && |exts| == count
            && TlvBytes(exts) == input[cursor..end]
            && ValuesFit(exts)
    decreases count
  {
    if count > 0 {
      var next := cursor + 4 + Field(input, cursor + 2, 2);
      BytesOfTlvs(input, next, end, count - 1);
      TlvSpelled(input, cursor);
      JoinSlices(input, cursor, next, end);
    }
  }

  /** Two places that hold the same section decode alike. */
  lemma SameSectionSameTlvs(a: Bytes, cursorA: nat, endA: nat, b: Bytes, cursorB: nat, endB: nat, count: nat)
    requires cursorA <= endA <= |a| && cursorB <= endB <= |b|
    requires a[cursorA..endA] == b[cursorB..endB]
    ensures TlvsAt(a, cursorA, endA, count) == TlvsAt(b, cursorB, endB, count)
  {
    var left, right := TlvsAt(a, cursorA, endA, count), TlvsAt(b, cursorB, endB, count);
    if left.Some? {
      BytesOfTlvs(a, cursorA, endA, count);
      TlvsOfBytes(b, cursorB, endB, left.value);
    } else if right.Some? {
      BytesOfTlvs(b, cursorB, endB, count);
      TlvsOfBytes(a, cursorA, endA, right.value);
    }
  }

  // ---------- Round trip and canonicity ----------

  // For an encodable message no narrowing cast loses bits.
  lemma HeaderIsExact(limits: Limits, m: Message)
    requires Encodable(limits, m)
    ensures HeaderOf(m).headerSize == WIRE_HEADER_SIZE + ExtensionBytes(m.extensions)
    ensures HeaderOf(m).payloadSize == |m.payload|
    ensures HeaderOf(m).extensionCount == |m.extensions|
    ensures ValuesFit(m.extensions)
  {
    SmallSectionFits(m.extensions);
  }

  lemma WireHeader(m: Message, tail: Bytes)
    ensures |Wire(m) + tail| >= WIRE_HEADER_SIZE
    ensures ReadHeader(Wire(m) + tail) == HeaderOf(m) && Field(Wire(m) + tail, 0, 4) == WIRE_MAGIC
  {
    var rest := TlvBytes(m.extensions) + m.payload + tail;
    assert Wire(m) + tail == WriteHeader(HeaderOf(m)) + rest;
    ReadOfWrite(HeaderOf(m));
    HeaderInPrefix(WriteHeader(HeaderOf(m)), rest);
  }

  lemma WireBody(m: Message, tail: Bytes)
    ensures var end := WIRE_HEADER_SIZE + ExtensionBytes(m.extensions);
            && |Wire(m)| == end + |m.payload|
            && (Wire(m) + tail)[WIRE_HEADER_SIZE..end] == TlvBytes(m.extensions)
            && (Wire(m) + tail)[end..|Wire(m)|] == m.payload
  {
    TlvLength(m.extensions);
  }

  lemma {:induction false} ExtensionBytesAppend(a: seq<Extension>, b: seq<Extension>)
    ensures ExtensionBytes(a + b) == ExtensionBytes(a) + ExtensionBytes(b)
  {
    TlvLength(a);
    TlvLength(b);
    TlvLength(a + b);
    FlattenAppend(Tlv, a, b);
  }

  // Where the i-th TLV of a frame lies.
  lemma TlvInWire(m: Message, i: nat)
    requires i < |m.extensions|
    ensures var at := WIRE_HEADER_SIZE + ExtensionBytes(m.extensions[..i]);
            var end := at + |Tlv(m.extensions[i])|;
            end <= |Wire(m)| && Wire(m)[at..end] == Tlv(m.extensions[i])
  {
    var before, e, after := m.extensions[..i], m.extensions[i], m.extensions[i + 1..];
    hide Tlv, WriteHeader, TlvBytes;
    assert m.extensions == before + ([e] + after);
    TlvsAround(before, e, after);
    TlvLength(before);
    WireLength(m);
    TlvLength(m.extensions);
    var start := WriteHeader(HeaderOf(m)) + TlvBytes(before);
    assert Wire(m) == start + Tlv(e) + (TlvBytes(after) + m.payload);
  }

  lemma TlvsAround(before: seq<Extension>, e: Extension, after: seq<Extension>)
    ensures TlvBytes(before + ([e] + after)) == TlvBytes(before) + Tlv(e) + TlvBytes(after)
  {
    FlattenAppend(Tlv, before, [e] + after);
    FlattenFirst(Tlv, [e] + after);
    assert ([e] + after)[1..] == after;
    hide Tlv, Flatten;
    Reassociate(Flatten(Tlv, before), Tlv(e), Flatten(Tlv, after));
  }

  /**
    The documented layout of a whole frame: each extension's ID, size and value follow one another
    behind the fixed header, and the payload comes last.
    */
  lemma FrameLayout(limits: Limits, m: Message, i: nat)
    requires Encodable(limits, m) && i < |m.extensions|
    ensures var w, e := Wire(m), m.extensions[i];
            var at, end := WIRE_HEADER_SIZE + ExtensionBytes(m.extensions[..i]), |Wire(m)| - |m.payload|;
            && at + 4 + |e.value| <= end == HeaderOf(m).headerSize
            && w[..WIRE_HEADER_SIZE] == WriteHeader(HeaderOf(m))
            && w[at..at + 2] == BigEndian(e.id, 2)
            && w[at + 2..at + 4] == BigEndian(|e.value|, 2)
            && w[at + 4..at + 4 + |e.value|] == e.value
            && w[end..] == m.payload
  {
    hide WriteHeader, BigEndian, Tlv, Wire;
    HeaderIsExact(limits, m);
    WireLength(m);
    WireParts(m);
    TlvInWire(m, i);
    var e, at := m.extensions[i], WIRE_HEADER_SIZE + ExtensionBytes(m.extensions[..i]);
    EarlierEnds(m.extensions, i);
    TlvParts(Wire(m), at, e);
  }

  lemma WireParts(m: Message)
    ensures |Wire(m)| >= WIRE_HEADER_SIZE + |m.payload|
    ensures Wire(m)[..WIRE_HEADER_SIZE] == WriteHeader(HeaderOf(m)) && Wire(m)[|Wire(m)| - |m.payload|..] == m.payload
  {
    hide WriteHeader, TlvBytes;
  }

  lemma EarlierEnds(exts: seq<Extension>, i: nat)
    requires i < |exts|
    ensures ExtensionBytes(exts[..i]) + 4 + |exts[i].value| <= ExtensionBytes(exts)
  {
    assert exts == exts[..i] + exts[i..];
    ExtensionBytesAppend(exts[..i], exts[i..]);
  }

  lemma TlvParts(w: Bytes, at: nat, e: Extension)
    requires |e.value| <= U16_MAX && at + |Tlv(e)| <= |w| && w[at..at + |Tlv(e)|] == Tlv(e)
    ensures w[at..at + 2] == BigEndian(e.id, 2) && w[at + 2..at + 4] == BigEndian(|e.value|, 2)
    ensures w[at + 4..at + 4 + |e.value|] == e.value
  {
    hide BigEndian;
    SplitSlice(w, at, at + |Tlv(e)|, BigEndian(e.id, 2) + BigEndian(|e.value|, 2), e.value);
    SplitSlice(w, at, at + 4, BigEndian(e.id, 2), BigEndian(|e.value|, 2));
  }

  lemma WireIsReady(limits: Limits, m: Message, tail: Bytes)
    requires Encodable(limits, m)
    ensures |Wire(m)| <= limits.maxFrameSize
    ensures Probe(limits, Wire(m) + tail) == Ok(FrameProbe(Ready, |Wire(m)|, |Wire(m)|))
    ensures MessageAt(limits, Wire(m) + tail) == m
  {
    WireHeader(m, tail);
    WireBody(m, tail);
    HeaderIsExact(limits, m);
    TlvsOfBytes(Wire(m) + tail, WIRE_HEADER_SIZE, HeaderOf(m).headerSize, m.extensions);
    ReadyWhen(limits, Wire(m) + tail, HeaderOf(m), m.extensions);
  }

  // The converse of ReadyFacts.
  lemma ReadyWhen(limits: Limits, s: Bytes, h: FixedHeader, exts: seq<Extension>)
    requires |s| >= WIRE_HEADER_SIZE && Field(s, 0, 4) == WIRE_MAGIC && ReadHeader(s) == h
    requires DeclaresWithin(limits, h) && h.headerSize + h.payloadSize <= |s|
    requires TlvsAt(s, WIRE_HEADER_SIZE, h.headerSize, h.extensionCount) == Some(exts)
    ensures var size := h.headerSize + h.payloadSize;
            && Probe(limits, s) == Ok(FrameProbe(Ready, size, size))
            && MessageAt(limits, s)
               == Message(Version(h.major, h.minor), h.kind, h.correlationId, s[h.headerSize..size], h.flags, exts)
  {
    hide TlvsAt, Field;
  }

  /** Decoding undoes encoding, whatever bytes follow; exact decoding insists that none do. */
  lemma RoundTrip(limits: Limits, m: Message, tail: Bytes)
    requires Encodable(limits, m)
    ensures |Wire(m)| <= limits.maxFrameSize
    ensures Decoded(limits, Wire(m) + tail) == Ok(DecodedFrame(m, |Wire(m)|))
    ensures Decode(limits, Wire(m) + tail) == if tail == [] then Ok(m) else Err(TrailingData)
  {
    WireIsReady(limits, m, tail);
  }

  /** Whatever the prefix decoder accepts is what the encoder would have written, byte for byte. */
  lemma Canonicity(limits: Limits, s: Bytes)
    requires Decoded(limits, s).Ok?
    ensures var d := Decoded(limits, s).value;
            && Encodable(limits, d.message)
            && d.consumed == |Wire(d.message)| <= |s|
            && Wire(d.message) == s[..d.consumed]
  {
    var h, d := ReadHeader(s), Decoded(limits, s).value;
    ReadyFacts(limits, s);
    BytesOfTlvs(s, WIRE_HEADER_SIZE, h.headerSize, h.extensionCount);
    TlvLength(d.message.extensions);
    HeaderReread(limits, h, d.message);
    WriteOfRead(s);
    WireLength(d.message);
    JoinSlices(s, 0, WIRE_HEADER_SIZE, h.headerSize);
    JoinSlices(s, 0, h.headerSize, d.consumed);
  }

  // The sizes a fixed header declares respect the limits.
  predicate DeclaresWithin(limits: Limits, h: FixedHeader) {
    && limits.Valid()
    && h.reserved == 0
    && h.headerSize >= WIRE_HEADER_SIZE
    && h.extensionCount <= limits.maxExtensionCount
    && h.headerSize - WIRE_HEADER_SIZE <= limits.maxExtensionBytes
    && h.payloadSize <= limits.maxPayloadSize
    && h.headerSize + h.payloadSize <= limits.maxFrameSize
  }

  lemma ReadyFacts(limits: Limits, s: Bytes)
    requires IsReady(limits, s)
    ensures |s| >= WIRE_HEADER_SIZE && Field(s, 0, 4) == WIRE_MAGIC
    ensures var h := ReadHeader(s);
            && DeclaresWithin(limits, h)
            && Probe(limits, s).value.frameSize == h.headerSize + h.payloadSize <= |s|
            && TlvsAt(s, WIRE_HEADER_SIZE, h.headerSize, h.extensionCount).Some?
  {
  }

  lemma HeaderReread(limits: Limits, h: FixedHeader, m: Message)
    requires DeclaresWithin(limits, h)
    requires |m.extensions| == h.extensionCount
    requires WIRE_HEADER_SIZE + ExtensionBytes(m.extensions) == h.headerSize
    requires |m.payload| == h.payloadSize && m.flags == h.flags && m.version == Version(h.major, h.minor)
    requires m.kind == h.kind && m.correlationId == h.correlationId
    ensures HeaderOf(m) == h
    ensures Encodable(limits, m)
  {
  }

  /** The decoder accepts exactly the inputs that start with an encoded message, and finds that message. */
  lemma DecodesExactlyFrames(limits: Limits, s: Bytes, m: Message, n: Size)
    ensures Decoded(limits, s) == Ok(DecodedFrame(m, n))
       <==> Encodable(limits, m) && n == |Wire(m)| && Wire(m) <= s
  {
    if Decoded(limits, s) == Ok(DecodedFrame(m, n)) {
      Canonicity(limits, s);
    } else if Encodable(limits, m) && Wire(m) <= s {
      RoundTrip(limits, m, s[|Wire(m)|..]);
      assert Wire(m) + s[|Wire(m)|..] == s;
    }
  }

  /** Encoded frames are prefix-free, and no two messages share one. */
  lemma PrefixFree(limits: Limits, m: Message, other: Limits, m': Message)
    requires Encodable(limits, m) && Encodable(other, m') && Wire(m) <= Wire(m')
    ensures m == m'
  {
    hide Wire, Probe, MessageAt, ExtensionBytes;
    var both := Limits(Min(U32_MAX, SIZE_MAX - 32), U16_MAX, U16_MAX, SIZE_MAX, SIZE_MAX);
    WireLength(m);
    WireLength(m');
    RoundTrip(both, m, Wire(m')[|Wire(m)|..]);
    RoundTrip(both, m', []);
    assert Wire(m) + Wire(m')[|Wire(m)|..] == Wire(m') == Wire(m') + [];
  }

  // ---------- Verdicts on prefixes ----------

  /** An error or a ready verdict never changes when more bytes arrive. */
  lemma ProbeStable(limits: Limits, s: Bytes, tail: Bytes)
    requires !IsIncomplete(limits, s)
    ensures Probe(limits, s + tail) == Probe(limits, s)
  {
    if limits.Valid() {
      FieldInPrefix(s, tail, 0, 4);
      if |s| >= WIRE_HEADER_SIZE {
        HeaderInPrefix(s, tail);
        var h := ReadHeader(s);
        if WIRE_HEADER_SIZE <= h.headerSize <= |s| {
          assert (s + tail)[WIRE_HEADER_SIZE..h.headerSize] == s[WIRE_HEADER_SIZE..h.headerSize];
          SameSectionSameTlvs(
            s, WIRE_HEADER_SIZE, h.headerSize, s + tail, WIRE_HEADER_SIZE, h.headerSize, h.extensionCount);
        }
      }
    }
  }

  lemma ReadyIsWhole(limits: Limits, s: Bytes)
    ensures IsReady(limits, s) ==> 0 < Probe(limits, s).value.frameSize <= |s|
  {
  }

  lemma PrefixOfFrame(limits: Limits, frame: Bytes, k: nat)
    requires IsReady(limits, frame) && Probe(limits, frame).value.frameSize == |frame| && k < |frame|
    ensures IsIncomplete(limits, frame[..k])
  {
    hide Probe, MessageAt;
    assert frame[..k] + frame[k..] == frame;
    if !IsIncomplete(limits, frame[..k]) {
      ProbeStable(limits, frame[..k], frame[k..]);
      ReadyIsWhole(limits, frame[..k]);
    }
  }

  /** Every proper prefix of an encoded frame is incomplete, never an error. */
  lemma ProperPrefixIncomplete(limits: Limits, m: Message, k: nat)
    requires Encodable(limits, m) && k < |Wire(m)|
    ensures IsIncomplete(limits, Wire(m)[..k])
  {
    hide Probe, Wire, MessageAt, Encodable;
    assert Wire(m) + [] == Wire(m);
    WireIsReady(limits, m, []);
    PrefixOfFrame(limits, Wire(m), k);
  }

  /** An error verdict is justified: no encodable frame agrees with the input. */
  lemma ErrorMeansNoFrame(limits: Limits, s: Bytes, m: Message)
    requires Probe(limits, s).Err? && Encodable(limits, m)
    ensures !(Wire(m) <= s) && !(s <= Wire(m))
  {
    if Wire(m) <= s {
      assert Wire(m) + s[|Wire(m)|..] == s;
      WireIsReady(limits, m, s[|Wire(m)|..]);
    } else if s <= Wire(m) {
      assert Wire(m)[..|s|] == s;
      ProperPrefixIncomplete(limits, m, |s|);
    }
  }

  // ---------- Which verdict, exactly ----------

  // Some list of `count` extensions has this TLV section.
  ghost predicate IsTlvSection(section: Bytes, count: nat) {
    exists exts: seq<Extension> :: |exts| == count && ValuesFit(exts) && TlvBytes(exts) == section
  }

  lemma SectionParses(input: Bytes, cursor: nat, end: nat, count: nat)
    requires cursor <= end <= |input|
    ensures TlvsAt(input, cursor, end, count).Some? <==> IsTlvSection(input[cursor..end], count)
  {
    if TlvsAt(input, cursor, end, count).Some? {
      BytesOfTlvs(input, cursor, end, count);
    }
    if IsTlvSection(input[cursor..end], count) {
      var exts :| |exts| == count && ValuesFit(exts) && TlvBytes(exts) == input[cursor..end];
      TlvsOfBytes(input, cursor, end, exts);
    }
  }

  lemma MagicBytes(s: Bytes)
    requires |s| >= 4
    ensures Field(s, 0, 4) == WIRE_MAGIC <==> s[..4] == [0x56, 0x53, 0x50, 0x31]
  {
    var magic: Bytes := [0x56, 0x53, 0x50, 0x31];
    assert Value(magic) == WIRE_MAGIC by {
      assert magic[..3][..2][..1] == [0x56] && magic[..3][..2] == [0x56, 0x53] && magic[..3] == [0x56, 0x53, 0x50];
      assert Value([0x56]) == 0x56;
      assert Value([0x56, 0x53]) == 0x5653;
      assert Value([0x56, 0x53, 0x50]) == 0x56_5350;
    }
    assert s[0..4] == s[..4];
    BigEndianOfValue(s[..4]);
    BigEndianOfValue(magic);
  }

  // The input holds a fixed header that starts with the ASCII letters VSP1.
  ghost predicate HasHeader(s: Bytes) {
    |s| >= WIRE_HEADER_SIZE && s[..4] == [0x56, 0x53, 0x50, 0x31]
  }

  // A reserved word that is not zero, or a header shorter than the fixed one.
  predicate BadHeader(h: FixedHeader) {
    h.reserved != 0 || h.headerSize < WIRE_HEADER_SIZE
  }

  // What the bytes must be like for each error.
  ghost predicate Deserves(limits: Limits, s: Bytes, e: ErrorCode) {
    match e
    case InvalidArgument =>
      !limits.Valid()
    case InvalidMagic =>
      limits.Valid() && |s| >= 4 && s[..4] != [0x56, 0x53, 0x50, 0x31]
    case LimitExceeded =>
      limits.Valid() && HasHeader(s) && !BadHeader(ReadHeader(s)) && !DeclaresWithin(limits, ReadHeader(s))
    case MalformedFrame =>
      && limits.Valid()
      && HasHeader(s)
      && var h := ReadHeader(s);
         || BadHeader(h)
         || (&& DeclaresWithin(limits, h)
             && |s| >= h.headerSize
             && !IsTlvSection(s[WIRE_HEADER_SIZE..h.headerSize], h.extensionCount))
    case _ =>
      false
  }

  /** The probe reports each error exactly when the bytes deserve it. */
  lemma ErrorsExactly(limits: Limits, s: Bytes, e: ErrorCode)
    ensures Probe(limits, s) == Err(e) <==> Deserves(limits, s, e)
  {
    if |s| >= 4 {
      MagicBytes(s);
    }
    if |s| >= WIRE_HEADER_SIZE && WIRE_HEADER_SIZE <= ReadHeader(s).headerSize <= |s| {
      SectionParses(s, WIRE_HEADER_SIZE, ReadHeader(s).headerSize, ReadHeader(s).extensionCount);
    }
  }

  // The input starts with a frame.
  ghost predicate StartsWithFrame(limits: Limits, s: Bytes) {
    exists m :: Encodable(limits, m) && Wire(m) <= s
  }

  lemma ReadyExactly(limits: Limits, s: Bytes)
    ensures IsReady(limits, s) <==> StartsWithFrame(limits, s)
  {
    hide Wire, Encodable, Probe, MessageAt;
    if IsReady(limits, s) {
      Canonicity(limits, s);
      assert Wire(MessageAt(limits, s)) <= s;
    }
    if StartsWithFrame(limits, s) {
      var m :| Encodable(limits, m) && Wire(m) <= s;
      assert Wire(m) + s[|Wire(m)|..] == s;
      WireIsReady(limits, m, s[|Wire(m)|..]);
    }
  }

  /** The input is incomplete exactly when it deserves no error and does not start with a frame. */
  lemma IncompleteExactly(limits: Limits, s: Bytes)
    ensures IsIncomplete(limits, s) <==> (forall e :: !Deserves(limits, s, e)) && !StartsWithFrame(limits, s)
  {
    hide Probe, Deserves, StartsWithFrame;
    ReadyExactly(limits, s);
    forall e
      ensures Probe(limits, s) == Err(e) <==> Deserves(limits, s, e)
    {
      ErrorsExactly(limits, s, e);
    }
    assert Probe(limits, s).Err? ==> Deserves(limits, s, Probe(limits, s).error);
  }

  /**
    The sizes a probe reports: before the fixed header is there, no frame size and the header's 32
    bytes as required; from then on the declared size of header and payload as both.
    */
  lemma ProbeSizes(limits: Limits, s: Bytes)
    requires Probe(limits, s).Ok?
    ensures var p := Probe(limits, s).value;
            if |s| < WIRE_HEADER_SIZE then
              p == FrameProbe(Incomplete, 0, WIRE_HEADER_SIZE)
            else
              p.frameSize == p.requiredSize == ReadHeader(s).headerSize + ReadHeader(s).payloadSize
              && (p.state == Ready <==> |s| >= p.frameSize)
  {
    hide TlvsAt, Field;
  }

  /** The prefix decoder fails exactly with the probe's errors, and asks for more exactly on an incomplete input. */
  lemma DecodedErrorsExactly(limits: Limits, s: Bytes, e: ErrorCode)
    ensures Decoded(limits, s) == Err(e)
       <==> if e == InsufficientData then IsIncomplete(limits, s) else Deserves(limits, s, e)
  {
    hide Probe, Deserves, MessageAt;
    ErrorsExactly(limits, s, e);
    NeverInsufficient(limits, s);
  }

  lemma NeverInsufficient(limits: Limits, s: Bytes)
    ensures Probe(limits, s) != Err(InsufficientData) && Probe(limits, s) != Err(TrailingData)
  {
  }

  /** The exact decoder accepts exactly the whole frames. */
  lemma DecodesExactlyWhole(limits: Limits, s: Bytes, m: Message)
    ensures Decode(limits, s) == Ok(m) <==> Encodable(limits, m) && s == Wire(m)
  {
    hide Wire, Encodable, Decoded;
    if Decode(limits, s).Ok? {
      Canonicity(limits, s);
      assert s[..|s|] == s;
    }
    if Encodable(limits, m) && s == Wire(m) {
      RoundTrip(limits, m, []);
      assert Wire(m) + [] == s;
    }
  }

  /** Its errors: trailing data exactly when a frame is followed by something, and otherwise the prefix decoder's. */
  lemma DecodeErrorsExactly(limits: Limits, s: Bytes, e: ErrorCode)
    ensures Decode(limits, s) == Err(e)
       <==> match e
            case TrailingData => exists m :: Encodable(limits, m) && Wire(m) < s
            case InsufficientData => IsIncomplete(limits, s)
            case _ => Deserves(limits, s, e)
  {
    hide Wire, Encodable, Decoded, Deserves;
    DecodedErrorsExactly(limits, s, e);
    DecodedErrorsExactly(limits, s, TrailingData);
    NoTrailingDeserved(limits, s);
    if Decoded(limits, s).Ok? {
      Canonicity(limits, s);
      assert Decode(limits, s) == Err(TrailingData) ==> Wire(Decoded(limits, s).value.message) < s;
    }
    if m :| Encodable(limits, m) && Wire(m) < s {
      RoundTrip(limits, m, s[|Wire(m)|..]);
      assert Wire(m) + s[|Wire(m)|..] == s;
    }
  }

  lemma NoTrailingDeserved(limits: Limits, s: Bytes)
    ensures !Deserves(limits, s, TrailingData)
  {
  }

  /**
    Once the whole header is there, "incomplete" is exact: the input is a proper prefix of an
    encodable frame, whose size the probe reports.
    */
  lemma IncompleteIsExact(limits: Limits, s: Bytes) returns (m: Message)
    requires IsIncomplete(limits, s) && |s| >= WIRE_HEADER_SIZE && |s| >= ReadHeader(s).headerSize
    ensures Encodable(limits, m) && s < Wire(m)
    ensures |Wire(m)| == Probe(limits, s).value.requiredSize
  {
    var h, size := ReadHeader(s), Probe(limits, s).value.frameSize;
    var padding := seq(size - |s|, _ => 0 as byte);
    var full := s + padding;
    HeaderInPrefix(s, padding);
    assert full[WIRE_HEADER_SIZE..h.headerSize] == s[WIRE_HEADER_SIZE..h.headerSize];
    SameSectionSameTlvs(s, WIRE_HEADER_SIZE, h.headerSize, full, WIRE_HEADER_SIZE, h.headerSize, h.extensionCount);
    assert IsReady(limits, full);
    Canonicity(limits, full);
    m := MessageAt(limits, full);
    assert full[..size] == full;
  }

  // ---------- How much more is needed ----------

  /** Fewer bytes than the probe asks for never make a frame, and it never asks beyond the limit. */
  lemma RequiredIsNecessary(limits: Limits, s: Bytes, more: Bytes)
    requires IsIncomplete(limits, s)
    ensures |s| < Probe(limits, s).value.requiredSize <= limits.maxFrameSize
    ensures |s + more| < Probe(limits, s).value.requiredSize ==> !IsReady(limits, s + more)
  {
    if |s| >= WIRE_HEADER_SIZE {
      HeaderInPrefix(s, more);
    }
  }

  /** Supplying what the probe asks for twice settles the verdict. */
  lemma TwoRounds(limits: Limits, s: Bytes, first: Bytes, second: Bytes)
    requires IsIncomplete(limits, s)
    requires |s + first| == Probe(limits, s).value.requiredSize
    ensures |s| >= WIRE_HEADER_SIZE ==> !IsIncomplete(limits, s + first)
    ensures IsIncomplete(limits, s + first) && |s + first + second| == Probe(limits, s + first).value.requiredSize
        ==> !IsIncomplete(limits, s + first + second)
  {
    if |s| >= WIRE_HEADER_SIZE {
      HeaderInPrefix(s, first);
    }
    if |s + first| >= WIRE_HEADER_SIZE {
      HeaderInPrefix(s + first, second);
    }
  }
}
