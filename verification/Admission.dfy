/**
  How large a chunk a drained decoder is sure to admit. What stays unread after draining is an
  incomplete input, so the question is how long an incomplete input can be.
  */
module Admission {
  import opened Words
  import opened Types
  import opened Frame
  import opened FrameTheorems
  import opened Completion
  import opened Stream
  import opened StreamTheorems

  // The longest TLV section a header may declare.
  function SectionLimit(limits: Limits): (r: nat) {
    Min(limits.maxExtensionBytes, U16_MAX - WIRE_HEADER_SIZE)
  }

  // Whether a TLV section can hold anything.
  predicate MayExtend(limits: Limits) {
    limits.maxExtensionCount >= 1 && SectionLimit(limits) >= 4
  }

  // The longest header that is incomplete while its TLV section is, whatever the section holds.
  function LongestHeader(limits: Limits): (r: nat) {
    Min(WIRE_HEADER_SIZE + SectionLimit(limits), limits.maxFrameSize)
  }

  // The length of the longest incomplete input.
  function LongestPartial(limits: Limits): (r: int) {
    (if MayExtend(limits) then
       Min(WIRE_HEADER_SIZE + SectionLimit(limits) + limits.maxPayloadSize, limits.maxFrameSize)
     else
       Max(WIRE_HEADER_SIZE + limits.maxPayloadSize, LongestHeader(limits))) - 1
  }

  // A whole TLV section is empty, or has room for at least one TLV.
  lemma SectionNeedsFour(s: Bytes, end: nat, count: nat)
    requires WIRE_HEADER_SIZE <= end <= |s| && TlvsAt(s, WIRE_HEADER_SIZE, end, count).Some?
    ensures end == WIRE_HEADER_SIZE || (count >= 1 && end >= WIRE_HEADER_SIZE + 4)
  {
  }

  /** No incomplete input is longer. */
  lemma PartialIsBounded(limits: Limits, s: Bytes)
    requires IsIncomplete(limits, s)
    ensures |s| <= LongestPartial(limits)
  {
    hide TlvsAt, Field;
    if |s| >= WIRE_HEADER_SIZE {
      var h := ReadHeader(s);
      if |s| >= h.headerSize {
        SectionNeedsFour(s, h.headerSize, h.extensionCount);
      }
    }
  }

  // All but the last byte of a header that declares a TLV section and holds only zeros there.
  lemma HollowHeader(limits: Limits) returns (s: Bytes)
    requires limits.Valid()
    ensures IsIncomplete(limits, s) && |s| == LongestHeader(limits) - 1
  {
    hide WriteHeader, TlvsAt, Field;
    var size := LongestHeader(limits);
    var h := FixedHeader(size, 0, 0, 0, 0, 0, 0, 0, 0);
    ReadOfWrite(h);
    if size == WIRE_HEADER_SIZE {
      s := WriteHeader(h)[..size - 1];
      assert s + WriteHeader(h)[size - 1..] == WriteHeader(h);
      FieldInPrefix(s, WriteHeader(h)[size - 1..], 0, 4);
    } else {
      var rest := Zeros(size - 1 - WIRE_HEADER_SIZE);
      s := WriteHeader(h) + rest;
      HeaderInPrefix(WriteHeader(h), rest);
    }
  }

  // A message with these extensions and a payload of this size.
  lemma LongMessage(limits: Limits, exts: seq<Extension>, payload: nat) returns (m: Message)
    requires limits.Valid() && payload <= limits.maxPayloadSize
    requires |exts| <= limits.maxExtensionCount && ExtensionBytes(exts) <= SectionLimit(limits)
    requires WIRE_HEADER_SIZE + ExtensionBytes(exts) + payload <= limits.maxFrameSize
    ensures Encodable(limits, m) && |Wire(m)| == WIRE_HEADER_SIZE + ExtensionBytes(exts) + payload
  {
    hide Wire;
    var h := FixedHeader(WIRE_HEADER_SIZE + ExtensionBytes(exts), 0, 0, 0, 0, 0, payload, |exts|, 0);
    m := MessageWith(limits, h, exts);
  }

  // An extension that fills a TLV section of this size.
  lemma OneExtension(size: nat) returns (exts: seq<Extension>)
    requires size >= 4
    ensures |exts| == 1 && ExtensionBytes(exts) == size
  {
    var e := Extension(0, Zeros(size - 4));
    exts := [e];
    assert ExtensionBytes([e]) == 4 + |e.value| + ExtensionBytes([e][1..]);
  }

  // ---------- Frames ----------

  // The size of the longest encodable frame.
  function LongestFrame(limits: Limits): (r: nat) {
    if MayExtend(limits) && limits.maxFrameSize >= WIRE_HEADER_SIZE + 4 then
      Min(WIRE_HEADER_SIZE + SectionLimit(limits) + limits.maxPayloadSize, limits.maxFrameSize)
    else
      WIRE_HEADER_SIZE + limits.maxPayloadSize
  }

  lemma FrameIsBounded(limits: Limits, m: Message)
    requires Encodable(limits, m)
    ensures |Wire(m)| <= LongestFrame(limits)
  {
    hide Wire, ExtensionBytes;
    WireLength(m);
    FourBytesEach(m.extensions);
  }

  lemma LongestFrameExists(limits: Limits) returns (m: Message)
    requires limits.Valid()
    ensures Encodable(limits, m) && |Wire(m)| == LongestFrame(limits)
  {
    hide Wire, Encodable;
    if MayExtend(limits) && limits.maxFrameSize >= WIRE_HEADER_SIZE + 4 {
      var section := Min(SectionLimit(limits), limits.maxFrameSize - WIRE_HEADER_SIZE);
      var exts := OneExtension(section);
      m := LongMessage(limits, exts, Min(limits.maxPayloadSize, limits.maxFrameSize - WIRE_HEADER_SIZE - section));
    } else {
      m := LongMessage(limits, [], limits.maxPayloadSize);
    }
  }

  // ---------- Incomplete inputs ----------

  /** And some incomplete input is as long. */
  lemma LongestPartialExists(limits: Limits) returns (s: Bytes)
    requires limits.Valid()
    ensures IsIncomplete(limits, s) && |s| == LongestPartial(limits)
  {
    hide Probe, Wire, Encodable;
    if LongestFrame(limits) > LongestPartial(limits) {
      var m := LongestFrameExists(limits);
      ProperPrefixIncomplete(limits, m, |Wire(m)| - 1);
      s := Wire(m)[..|Wire(m)| - 1];
    } else {
      s := HollowHeader(limits);
    }
  }

  lemma DrainedIsIncomplete(limits: Limits, s: Session)
    requires limits.Valid()
    ensures NextOutcome(limits, s) == NoMessage <==> IsIncomplete(limits, s.unread)
  {
  }

  /** A drained receiver admits every chunk that leaves room for the longest partial input. */
  lemma SmallChunkAdmitted(limits: Limits, s: Session, chunk: Bytes)
    requires limits.Valid() && NextOutcome(limits, s) == NoMessage
    requires |chunk| <= limits.maxBufferedBytes - LongestPartial(limits)
    ensures Step(limits, s, Push(chunk)).1 == Accepted
    ensures |s.unread| + |chunk| <= limits.maxBufferedBytes
  {
    hide Probe, LongestPartial;
    DrainedIsIncomplete(limits, s);
    PartialIsBounded(limits, s.unread);
  }

  /**
    That bound is exact for all limits: behind the longest partial input, one push away from a fresh
    decoder, draining does nothing and a longer chunk is rejected, so offering it again never succeeds.
    */
  lemma LargeChunkWedges(limits: Limits, chunk: Bytes) returns (partial: Bytes)
    requires limits.Valid()
    ensures var fed := Step(limits, FRESH, Push(partial));
            && fed.1 == Accepted
            && Step(limits, fed.0, Next) == (fed.0, NoMessage)
            && (Step(limits, fed.0, Push(chunk)) == (fed.0, Rejected(LimitExceeded))
                <==> |chunk| > limits.maxBufferedBytes - LongestPartial(limits))
  {
    partial := LongestPartialExists(limits);
    assert [] + partial == partial;
  }
}
