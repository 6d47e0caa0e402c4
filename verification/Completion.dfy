/**
  When an incomplete input can still become a frame. The probe reports "incomplete" as soon as it has
  no reason to reject; whether any frame can follow is decided here on the bytes that are present.
  */
module Completion {
  import opened Words
  import opened Types
  import opened Frame
  import opened FrameTheorems

  const MAGIC_BYTES: Bytes := [0x56, 0x53, 0x50, 0x31]

  function Zeros(n: nat): (r: Bytes)
    ensures |r| == n && forall i :: 0 <= i < n ==> r[i] == 0
  {
    seq(n, _ => 0)
  }

  // The byte at an index, zero beyond the end.
  function At(x: Bytes, i: nat): (b: byte) {
    if i < |x| then x[i] else 0
  }

  // ---------- TLV sections ----------

  /**
    x can be continued to exactly `count` TLVs of `size` bytes together: every later TLV needs four
    bytes, the last one has to fill the section, and a TLV whose size is only half there must have a
    size that fits.
    */
  predicate CanGrow(x: Bytes, count: nat, size: nat)
    requires |x| <= size
    decreases count
  {
    if count == 0 then
      size == 0
    else if size < 4 * count then
      false
    else if |x| < 4 then
      |x| < 3 || (if count == 1 then x[2] == (size - 4) / 256 else 256 * x[2] as int + 4 * count <= size)
    else
      var next := 4 + Field(x, 2, 2);
      next <= size && CanGrow(if |x| <= next then [] else x[next..], count - 1, size - next)
  }

  lemma HighLow(v: nat)
    requires v <= U16_MAX
    ensures BigEndian(v, 2) == [v / 256, v % 256]
  {
    assert BigEndian(v / 256, 1) == BigEndian(v / 65536, 0) + [v / 256];
  }

  lemma TlvHead(e: Extension)
    requires |e.value| <= U16_MAX
    ensures Tlv(e)[..4] == [e.id / 256, e.id % 256, |e.value| / 256, |e.value| % 256]
    ensures Tlv(e)[4..] == e.value
  {
    hide BigEndian;
    HighLow(e.id);
    HighLow(|e.value|);
  }

  // An extension of a given length whose bytes agree with x as far as both go.
  lemma Agreeing(x: Bytes, v: nat) returns (e: Extension)
    requires v <= U16_MAX && (|x| >= 3 ==> x[2] == v / 256) && (|x| >= 4 ==> x[3] == v % 256)
    ensures |e.value| == v
    ensures forall i :: 0 <= i < |x| && i < 4 + v ==> Tlv(e)[i] == x[i]
  {
    hide Tlv;
    e := Extension(256 * At(x, 0) as int + At(x, 1), seq(v, i requires i >= 0 => At(x, 4 + i)));
    TlvHead(e);
    forall i | 0 <= i < |x| && i < 4 + v
      ensures Tlv(e)[i] == x[i]
    {
      if i < 4 {
        assert Tlv(e)[i] == Tlv(e)[..4][i];
      } else {
        assert Tlv(e)[i] == Tlv(e)[4..][i - 4];
      }
    }
  }

  lemma PrefixOfConcat(x: Bytes, a: Bytes, b: Bytes)
    requires forall i :: 0 <= i < |x| && i < |a| ==> a[i] == x[i]
    requires |x| <= |a| || x[|a|..] <= b
    ensures x <= a + b
  {
    if |x| > |a| {
      assert forall i :: |a| <= i < |x| ==> x[i] == x[|a|..][i - |a|] == b[i - |a|];
    }
  }

  lemma TlvBytesFirst(e: Extension, rest: seq<Extension>)
    ensures TlvBytes([e] + rest) == Tlv(e) + TlvBytes(rest)
    ensures ExtensionBytes([e] + rest) == 4 + |e.value| + ExtensionBytes(rest)
  {
    assert ([e] + rest)[1..] == rest;
  }

  // The size of the next TLV: given when its header is there, otherwise the one that leaves most room.
  function NextSize(x: Bytes, count: nat, size: nat): (v: nat)
    requires |x| <= size && CanGrow(x, count, size) && count > 0
    ensures 4 + v <= size
    ensures |x| >= 3 && size <= U16_MAX ==> x[2] == v / 256
    ensures |x| >= 4 ==> v == Field(x, 2, 2)
  {
    if |x| >= 4 then
      SpelledBy(x, 2, 2);
      HighLow(Field(x, 2, 2));
      assert x[2] == x[2..4][0];
      Field(x, 2, 2)
    else if count == 1 then size - 4
    else if |x| == 3 then 256 * x[2] as int
    else 0
  }

  /** A section that can grow does: here are extensions it is the start of. */
  lemma {:induction false} Grow(x: Bytes, count: nat, size: nat) returns (exts: seq<Extension>)
    requires |x| <= size <= U16_MAX && CanGrow(x, count, size)
    ensures |exts| == count && ExtensionBytes(exts) == size && x <= TlvBytes(exts)
    decreases count
  {
    if count == 0 {
      exts := [];
    } else {
      var v := NextSize(x, count, size);
      var next := 4 + v;
      if |x| >= 4 {
        SpelledBy(x, 2, 2);
        HighLow(v);
        assert x[3] == x[2..4][1];
      }
      var e := Agreeing(x, v);
      var rest := Grow(if |x| <= next then [] else x[next..], count - 1, size - next);
      TlvBytesFirst(e, rest);
      PrefixOfConcat(x, Tlv(e), TlvBytes(rest));
      exts := [e] + rest;
    }
  }

  lemma {:induction false} FourBytesEach(exts: seq<Extension>)
    ensures ExtensionBytes(exts) >= 4 * |exts|
    ensures exts == [] ==> ExtensionBytes(exts) == 0
  {
    if exts != [] {
      FourBytesEach(exts[1..]);
    }
  }

  // The size of a TLV whose header is there is that of its value.
  lemma DeclaredSize(x: Bytes, e: Extension)
    requires |e.value| <= U16_MAX && |x| >= 4
    requires forall i :: 0 <= i < 4 ==> x[i] == Tlv(e)[..4][i]
    ensures Field(x, 2, 2) == |e.value|
  {
    hide Tlv, Field, BigEndian;
    TlvHead(e);
    HighLow(|e.value|);
    assert x[2..4] == BigEndian(|e.value|, 2);
    Pow256Values();
    FieldOfBigEndian(x, 2, 2, |e.value|);
  }

  /** Conversely, the start of any section of extensions can grow. */
  lemma {:induction false} StartCanGrow(x: Bytes, exts: seq<Extension>)
    requires ValuesFit(exts) && x <= TlvBytes(exts)
    ensures |x| <= ExtensionBytes(exts) && CanGrow(x, |exts|, ExtensionBytes(exts))
    decreases |exts|
  {
    hide Tlv, Field, TlvBytes;
    TlvLength(exts);
    if exts == [] {
    } else {
      var e, rest := exts[0], exts[1..];
      TlvBytesFirst(e, rest);
      assert exts == [e] + rest;
      FourBytesEach(rest);
      assert forall i :: 0 <= i < |x| && i < 4 ==> x[i] == Tlv(e)[..4][i];
      var next := 4 + |e.value|;
      if |x| < 4 {
        TlvHead(e);
      } else {
        DeclaredSize(x, e);
        assert |x| > next ==> x[next..] <= TlvBytes(rest);
        StartCanGrow(if |x| <= next then [] else x[next..], rest);
      }
    }
  }

  // ---------- Fixed headers ----------

  // Some message has this fixed header.
  predicate Feasible(limits: Limits, h: FixedHeader) {
    DeclaresWithin(limits, h) && CanGrow([], h.extensionCount, h.headerSize - WIRE_HEADER_SIZE)
  }

  function Max(a: int, b: int): (r: int) {
    if a >= b then a else b
  }

  /**
    The least header that the bytes present allow: missing bytes are zero, except that a header size
    still open is at least 32 and, where a TLV section is needed, a count still open is at least 1.
    */
  function LeastHeader(s: Bytes): (h: FixedHeader)
    requires 4 <= |s| <= WIRE_HEADER_SIZE
  {
    var h := ReadHeader(s + Zeros(WIRE_HEADER_SIZE - |s|));
    var headerSize := if |s| < 6 then Max(h.headerSize, WIRE_HEADER_SIZE) else h.headerSize;
    var count := if |s| < 30 && headerSize > WIRE_HEADER_SIZE then Max(h.extensionCount, 1) else h.extensionCount;
    h.(headerSize := headerSize, extensionCount := count)
  }

  /** The condition, on the bytes present, under which an incomplete input can still become a frame. */
  predicate Completable(limits: Limits, s: Bytes) {
    if |s| <= 4 then
      s <= MAGIC_BYTES
    else if |s| < WIRE_HEADER_SIZE then
      s[..4] == MAGIC_BYTES && Feasible(limits, LeastHeader(s))
    else
      var h := ReadHeader(s);
      |s| < h.headerSize ==> CanGrow(s[WIRE_HEADER_SIZE..], h.extensionCount, h.headerSize - WIRE_HEADER_SIZE)
  }

  lemma MessageWith(limits: Limits, h: FixedHeader, exts: seq<Extension>) returns (m: Message)
    requires DeclaresWithin(limits, h)
    requires |exts| == h.extensionCount && ExtensionBytes(exts) == h.headerSize - WIRE_HEADER_SIZE
    ensures Encodable(limits, m) && Wire(m) == WriteHeader(h) + TlvBytes(exts) + m.payload
    ensures |Wire(m)| == h.headerSize + h.payloadSize
  {
    hide WriteHeader;
    m := Message(Version(h.major, h.minor), h.kind, h.correlationId, Zeros(h.payloadSize), h.flags, exts);
    HeaderReread(limits, h, m);
    WireLength(m);
  }

  lemma FrameWith(limits: Limits, h: FixedHeader) returns (m: Message)
    requires Feasible(limits, h)
    ensures Encodable(limits, m) && WriteHeader(h) <= Wire(m)
  {
    hide WriteHeader;
    var exts := Grow([], h.extensionCount, h.headerSize - WIRE_HEADER_SIZE);
    m := MessageWith(limits, h, exts);
  }

  // Two headers that differ in header size and count only, byte by byte.
  lemma HeadersDiffer(h: FixedHeader, g: FixedHeader)
    requires h == g.(headerSize := h.headerSize, extensionCount := h.extensionCount)
    ensures var a, b := WriteHeader(h), WriteHeader(g);
            && a[0..4] == b[0..4] && a[6..28] == b[6..28] && a[30..32] == b[30..32]
            && a[4..6] == [h.headerSize / 256, h.headerSize % 256]
            && a[28..30] == [h.extensionCount / 256, h.extensionCount % 256]
  {
    var a, b := WriteHeader(h), WriteHeader(g);
    HeaderLayout(h);
    HeaderLayout(g);
    HighLow(h.headerSize);
    HighLow(h.extensionCount);
    hide WriteHeader, BigEndian;
    MiddleBytes(a);
    MiddleBytes(b);
  }

  lemma MiddleBytes(w: Bytes)
    requires |w| == WIRE_HEADER_SIZE
    ensures w[6..28] == w[6..8] + w[8..10] + w[10..12] + w[12..16] + w[16..24] + w[24..28]
  {
    JoinSlices(w, 6, 8, 10);
    JoinSlices(w, 6, 10, 12);
    JoinSlices(w, 6, 12, 16);
    JoinSlices(w, 6, 16, 24);
    JoinSlices(w, 6, 24, 28);
  }

  lemma LeastHeaderExtends(s: Bytes)
    requires 4 < |s| < WIRE_HEADER_SIZE && Field(s, 0, 4) == WIRE_MAGIC
    ensures s <= WriteHeader(LeastHeader(s))
  {
    hide WriteHeader, Field;
    var z := s + Zeros(WIRE_HEADER_SIZE - |s|);
    var g, h := ReadHeader(z), LeastHeader(s);
    FieldInPrefix(s, Zeros(WIRE_HEADER_SIZE - |s|), 0, 4);
    WriteOfRead(z);
    assert z[..WIRE_HEADER_SIZE] == z;
    HeadersDiffer(h, g);
    HeadersDiffer(g, g);
    var a := WriteHeader(h);
    forall i | 0 <= i < |s|
      ensures a[i] == z[i]
    {
      if i < 4 {
        assert a[i] == a[0..4][i] && z[i] == z[0..4][i];
      } else if i < 6 {
        assert a[i] == a[4..6][i - 4] && z[i] == z[4..6][i - 4];
        assert |s| == 5 ==> z[5] == z[4..6][1] == 0;
      } else if i < 28 {
        assert a[i] == a[6..28][i - 6] && z[i] == z[6..28][i - 6];
      } else if i < 30 {
        assert a[i] == a[28..30][i - 28] && z[i] == z[28..30][i - 28];
        assert |s| == 29 ==> z[29] == z[28..30][1] == 0;
      } else {
        assert a[i] == a[30..32][i - 30] && z[i] == z[30..32][i - 30];
      }
    }
  }

  lemma {:induction false} PaddedValue(a: Bytes, b: Bytes, k: nat)
    requires |a| == |b| && forall i :: 0 <= i < |a| ==> a[i] == if i < k then b[i] else 0
    ensures Value(a) <= Value(b)
    ensures k >= |a| ==> Value(a) == Value(b)
  {
    if a != [] {
      PaddedValue(a[..|a| - 1], b[..|b| - 1], k);
    }
  }

  // Padding with zeros gives the least value a field can have, and its value if the field is all there.
  lemma PaddedField(s: Bytes, full: Bytes, offset: nat, width: nat)
    requires |s| <= WIRE_HEADER_SIZE <= |full| && s <= full && offset + width <= WIRE_HEADER_SIZE
    ensures var z := s + Zeros(WIRE_HEADER_SIZE - |s|);
            && Field(z, offset, width) <= Field(full, offset, width)
            && (offset + width <= |s| ==> Field(z, offset, width) == Field(full, offset, width))
  {
    var z := s + Zeros(WIRE_HEADER_SIZE - |s|);
    var k := if |s| <= offset then 0 else |s| - offset;
    PaddedValue(z[offset..offset + width], full[offset..offset + width], k);
  }

  lemma EncodableIsFeasible(limits: Limits, m: Message)
    requires Encodable(limits, m)
    ensures Feasible(limits, HeaderOf(m))
  {
    HeaderIsExact(limits, m);
    StartCanGrow([], m.extensions);
  }

  lemma LeastIsFeasible(limits: Limits, s: Bytes, full: Bytes)
    requires 4 < |s| < WIRE_HEADER_SIZE <= |full| && s <= full && Feasible(limits, ReadHeader(full))
    ensures Feasible(limits, LeastHeader(s))
  {
    hide Field;
    PaddedField(s, full, 4, 2);
    PaddedField(s, full, 24, 4);
    PaddedField(s, full, 28, 2);
    PaddedField(s, full, 30, 2);
    PaddedField(s, full, 4, 1);
    HighByte(s + Zeros(WIRE_HEADER_SIZE - |s|));
  }

  // With one byte of the header size missing, the padded size is a multiple of 256.
  lemma HighByte(z: Bytes)
    requires |z| == WIRE_HEADER_SIZE
    ensures z[5] == 0 ==> Field(z, 4, 2) % 256 == 0
    ensures z[28] == 0 && z[29] == 0 ==> Field(z, 28, 2) == 0
  {
    SpelledBy(z, 4, 2);
    SpelledBy(z, 28, 2);
    HighLow(Field(z, 4, 2));
    HighLow(Field(z, 28, 2));
    assert z[4..6][1] == z[5] && z[28..30][0] == z[28] && z[28..30][1] == z[29];
  }

  // ---------- The exact condition ----------

  ghost predicate FrameFollows(limits: Limits, s: Bytes) {
    exists m :: Encodable(limits, m) && s < Wire(m)
  }

  lemma ShortStart(limits: Limits, s: Bytes)
    requires limits.Valid() && |s| <= 4
    ensures FrameFollows(limits, s) <==> s <= MAGIC_BYTES
  {
    hide Wire;
    forall m: Message
      ensures |Wire(m)| >= WIRE_HEADER_SIZE && Wire(m)[..4] == MAGIC_BYTES
    {
      WireLength(m);
      WireHeader(m, []);
      assert Wire(m) + [] == Wire(m);
      MagicBytes(Wire(m));
    }
    if s <= MAGIC_BYTES {
      var m := FrameWith(limits, FixedHeader(WIRE_HEADER_SIZE, 0, 0, 0, 0, 0, 0, 0, 0));
      assert s <= Wire(m)[..4];
      assert s < Wire(m);
    }
    if FrameFollows(limits, s) {
      var m :| Encodable(limits, m) && s < Wire(m);
      assert s <= Wire(m)[..4];
    }
  }

  lemma PartialHeader(limits: Limits, s: Bytes)
    requires limits.Valid() && 4 < |s| < WIRE_HEADER_SIZE && Field(s, 0, 4) == WIRE_MAGIC
    ensures FrameFollows(limits, s) <==> Feasible(limits, LeastHeader(s))
  {
    hide Wire, WriteHeader, Encodable, Feasible;
    if Feasible(limits, LeastHeader(s)) {
      var m := FrameWith(limits, LeastHeader(s));
      LeastHeaderExtends(s);
      assert s < Wire(m);
    }
    if FrameFollows(limits, s) {
      var m :| Encodable(limits, m) && s < Wire(m);
      EncodableIsFeasible(limits, m);
      WireHeader(m, []);
      assert Wire(m) + [] == Wire(m);
      LeastIsFeasible(limits, s, Wire(m));
    }
  }

  lemma PartialSection(limits: Limits, s: Bytes)
    requires |s| >= WIRE_HEADER_SIZE && Field(s, 0, 4) == WIRE_MAGIC
    requires DeclaresWithin(limits, ReadHeader(s)) && |s| < ReadHeader(s).headerSize
    ensures var h := ReadHeader(s);
            FrameFollows(limits, s)
            <==> CanGrow(s[WIRE_HEADER_SIZE..], h.extensionCount, h.headerSize - WIRE_HEADER_SIZE)
  {
    hide WriteHeader, CanGrow;
    var h, x := ReadHeader(s), s[WIRE_HEADER_SIZE..];
    if CanGrow(x, h.extensionCount, h.headerSize - WIRE_HEADER_SIZE) {
      var exts := Grow(x, h.extensionCount, h.headerSize - WIRE_HEADER_SIZE);
      var m := MessageWith(limits, h, exts);
      WriteOfRead(s);
      TlvLength(exts);
      assert s == s[..WIRE_HEADER_SIZE] + x;
      assert s < Wire(m);
    }
    if FrameFollows(limits, s) {
      var m :| Encodable(limits, m) && s < Wire(m);
      SectionOf(limits, s, m);
    }
  }

  lemma SectionOf(limits: Limits, s: Bytes, m: Message)
    requires Encodable(limits, m) && s < Wire(m) && |s| >= WIRE_HEADER_SIZE && |s| < ReadHeader(s).headerSize
    ensures var h := ReadHeader(s);
            CanGrow(s[WIRE_HEADER_SIZE..], h.extensionCount, h.headerSize - WIRE_HEADER_SIZE)
  {
    hide Wire, CanGrow;
    var tail := Wire(m)[|s|..];
    assert s + tail == Wire(m) == Wire(m) + [];
    HeaderInPrefix(s, tail);
    WireHeader(m, []);
    WireBody(m, []);
    HeaderIsExact(limits, m);
    var end := WIRE_HEADER_SIZE + ExtensionBytes(m.extensions);
    assert s[WIRE_HEADER_SIZE..] == Wire(m)[WIRE_HEADER_SIZE..end][..|s| - WIRE_HEADER_SIZE];
    StartCanGrow(s[WIRE_HEADER_SIZE..], m.extensions);
  }

  /** An incomplete input is the start of some encodable frame exactly when it is completable. */
  lemma CompletableExactly(limits: Limits, s: Bytes)
    requires IsIncomplete(limits, s)
    ensures FrameFollows(limits, s) <==> Completable(limits, s)
  {
    if |s| <= 4 {
      ShortStart(limits, s);
    } else {
      MagicBytes(s);
      if |s| < WIRE_HEADER_SIZE {
        PartialHeader(limits, s);
      } else if |s| < ReadHeader(s).headerSize {
        PartialSection(limits, s);
      } else {
        var m := IncompleteIsExact(limits, s);
      }
    }
  }

  /** One wrong byte is incomplete, and no frame can follow it. */
  lemma ByteWithoutHope(limits: Limits)
    requires limits.Valid()
    ensures IsIncomplete(limits, [0]) && !FrameFollows(limits, [0])
  {
    ShortStart(limits, [0]);
    assert MAGIC_BYTES[0] != 0;
  }

  /** So is every header that declares a TLV section of some size and no TLVs. */
  lemma HeaderWithoutHope(limits: Limits, s: Bytes)
    requires |s| == WIRE_HEADER_SIZE && Field(s, 0, 4) == WIRE_MAGIC && DeclaresWithin(limits, ReadHeader(s))
    requires ReadHeader(s).extensionCount == 0 && ReadHeader(s).headerSize > WIRE_HEADER_SIZE
    ensures IsIncomplete(limits, s) && !FrameFollows(limits, s)
  {
    PartialSection(limits, s);
  }

  lemma HeaderWithoutHopeExists(limits: Limits) returns (s: Bytes)
    requires limits.Valid() && limits.maxExtensionBytes >= 4 && limits.maxFrameSize >= 36
    ensures IsIncomplete(limits, s) && !FrameFollows(limits, s) && |s| == WIRE_HEADER_SIZE
  {
    hide WriteHeader, ReadHeader, Field;
    var h := FixedHeader(36, 0, 0, 0, 0, 0, 0, 0, 0);
    ReadOfWrite(h);
    s := WriteHeader(h);
    HeaderWithoutHope(limits, s);
  }
}
