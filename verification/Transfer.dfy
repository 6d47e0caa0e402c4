/**
  The classes put together: a sender that encodes messages and writes them to a TCP stream, and a
  receiver that pumps the bytes through a decoder in chunks of whatever size.
  */
module Transfer {
  import opened Options
  import opened Words
  import opened Types
  import opened Frame
  import opened FrameTheorems
  import opened Codec
  import opened Stream
  import opened StreamTheorems
  import Admission
  import EndToEnd
  import Sockets
  import Tcp

  // The bytes are the frames of the first k messages and a proper part of the next frame, if any.
  ghost predicate FramesAndPart(limits: Limits, messages: seq<Message>, k: nat, part: nat, bytes: Bytes) {
    && k <= |messages|
    && AllEncodable(limits, messages[..k])
    && (part == 0 || (k < |messages| && Encodable(limits, messages[k]) && part < |Wire(messages[k])|))
    && bytes == WireAll(messages[..k]) + if part == 0 then [] else Wire(messages[k])[..part]
  }

  /** Sends messages in turn; whatever partial writes and failures happen, the wire holds their frames in order. */
  method SendMessages(stream: Tcp.TcpStream, limits: Limits, messages: seq<Message>)
    returns (ok: bool, ghost sent: Bytes, ghost k: nat, ghost part: nat)
    modifies stream, stream.os`open, stream.os`released, stream.os`sockets, stream.os`replies
    requires stream.Valid() && stream.Connected()
    ensures stream.Valid()
    ensures old(stream.Handle()) in stream.os.sockets
    ensures stream.Written(old(stream.Handle())) == old(stream.Written(stream.Handle())) + sent
    ensures FramesAndPart(limits, messages, k, part, sent)
    ensures ok <==> k == |messages|
    ensures ok ==> stream.Connected()
    ensures !ok ==> k < |messages| && (Encodable(limits, messages[k]) ==> !stream.Connected())
  {
    hide Wire, Encodable, Sockets.Conserves;
    ghost var h := stream.Handle();
    ghost var start := stream.Written(h);
    sent := [];
    assert start + sent == start;
    for i := 0 to |messages|
      invariant stream.Valid() && stream.Connected() && stream.Handle() == h
      invariant AllEncodable(limits, messages[..i]) && sent == WireAll(messages[..i])
      invariant stream.Written(h) == start + sent
    {
      var frame := Encode(limits, messages[i]);
      if frame.Err? {
        assert sent + [] == sent;
        return false, sent, i, 0;
      }
      var r, count := stream.SendAll(frame.value);
      Reassociate(start, sent, frame.value[..count]);
      if r.Fault? {
        assert sent + frame.value[..count] == sent + if count == 0 then [] else frame.value[..count];
        return false, sent + frame.value[..count], i, count;
      }
      assert frame.value[..count] == frame.value;
      assert messages[..i + 1] == messages[..i] + [messages[i]];
      FlattenSnoc(Wire, messages[..i], messages[i]);
      sent := sent + frame.value;
    }
    assert messages[..|messages|] == messages;
    assert sent + [] == sent;
    return true, sent, |messages|, 0;
  }

  // Calls next until it has nothing more, collecting what it emits.
  method Drain(d: StreamDecoder, before: seq<Message>) returns (received: seq<Message>, error: Option<ErrorCode>)
    modifies d
    requires d.Valid() && before == d.session.emitted
    ensures d.Valid()
    ensures received == d.session.emitted && d.session.accepted == old(d.session).accepted
    ensures NextOutcome(d.limits, d.session) == if error.Some? then Failed(error.value) else NoMessage
  {
    hide Probe, Conserved, MessageAt;
    received := before;
    while true
      invariant d.Valid()
      invariant received == d.session.emitted && d.session.accepted == old(d.session).accepted
      decreases |d.session.unread|
    {
      ghost var unread := d.session.unread;
      var r := d.Next();
      if r.Err? {
        return received, Some(r.error);
      }
      if r.value.None? {
        return received, None;
      }
      ReadyIsWhole(d.limits, unread);
      received := received + [r.value.value];
    }
  }

  // What is left to parse decides the rest of a conserved session's input.
  lemma ParseFrom(limits: Limits, s: Session, rest: Bytes)
    requires Conserved(limits, s)
    ensures Parse(limits, s.accepted + rest) == Prepend(s.emitted, Parse(limits, s.unread + rest))
  {
    hide Wire, Parse, Encodable;
    Reassociate(WireAll(s.emitted), s.unread, rest);
    ParseOfWires(limits, s.emitted, s.unread + rest);
  }

  lemma BrokenForever(limits: Limits, s: Session, rest: Bytes)
    requires Conserved(limits, s) && NextOutcome(limits, s).Failed?
    ensures var p := Parse(limits, s.accepted + rest);
            p.messages == s.emitted && p.status == Broken(NextOutcome(limits, s).error)
  {
    hide Probe, MessageAt, Encodable, Wire;
    ParseFrom(limits, s, rest);
    ProbeStable(limits, s.unread, rest);
    assert s.emitted + [] == s.emitted;
  }

  lemma RunEnds(limits: Limits, s: Session)
    requires Conserved(limits, s) && NextOutcome(limits, s) == NoMessage
    ensures Parse(limits, s.accepted).messages == s.emitted && !Parse(limits, s.accepted).status.Broken?
  {
    hide Probe, Parse, MessageAt, Encodable;
    ParseFrom(limits, s, []);
    assert s.accepted + [] == s.accepted && s.unread + [] == s.unread;
    SettledParse(limits, s);
    assert s.emitted + [] == s.emitted;
  }

  // Pushes one chunk that fits and drains the decoder.
  method Feed(d: StreamDecoder, chunk: Bytes, before: seq<Message>)
    returns (received: seq<Message>, error: Option<ErrorCode>)
    modifies d
    requires d.Valid() && d.limits.Valid() && before == d.session.emitted
    requires |d.session.unread| + |chunk| <= d.limits.maxBufferedBytes
    ensures d.Valid()
    ensures received == d.session.emitted && d.session.accepted == old(d.session).accepted + chunk
    ensures NextOutcome(d.limits, d.session) == if error.Some? then Failed(error.value) else NoMessage
  {
    hide Probe, Conserved, MessageAt, NextOutcome;
    var pushed := d.Push(chunk);
    received, error := Drain(d, before);
  }

  /**
    A decoder that is drained after each chunk and given chunks of any sizes up to the admission
    bound emits exactly the messages of the reference parser on the whole input, and its error.
    */
  method Pump(d: StreamDecoder, input: Bytes) returns (received: seq<Message>, error: Option<ErrorCode>)
    modifies d
    requires d.Valid() && d.limits.Valid() && d.session == FRESH
    ensures d.Valid()
    ensures received == Parse(d.limits, input).messages
    ensures error == if Parse(d.limits, input).status.Broken? then Some(Parse(d.limits, input).status.error) else None
  {
    received, error := [], None;
    var rest := input;
    assert d.session.accepted + rest == input && NextOutcome(d.limits, d.session) == NoMessage;
    hide Probe, Parse, Step, NextOutcome, Conserved;
    while rest != []
      invariant d.Valid()
      invariant received == d.session.emitted && error.None?
      invariant d.session.accepted + rest == input
      invariant NextOutcome(d.limits, d.session) == NoMessage
      decreases |rest|
    {
      var size := ChunkSize(|rest|, d.limits.maxBufferedBytes - Admission.LongestPartial(d.limits));
      Reassociate(d.session.accepted, rest[..size], rest[size..]);
      assert rest[..size] + rest[size..] == rest;
      Admission.SmallChunkAdmitted(d.limits, d.session, rest[..size]);
      received, error := Feed(d, rest[..size], received);
      rest := rest[size..];
      if error.Some? {
        BrokenForever(d.limits, d.session, rest);
        return;
      }
    }
    assert d.session.accepted + [] == d.session.accepted;
    RunEnds(d.limits, d.session);
  }

  // Whatever the network delivers at once.
  method ChunkSize(available: nat, bound: nat) returns (size: nat)
    requires available > 0 && bound > 0
    ensures 0 < size <= available && size <= bound
  {
    assert 0 < 1 <= available && 1 <= bound;
    size :| 0 < size <= available && size <= bound;
  }

  /**
    Sending and receiving compose: the receiver gets exactly the k messages whose frames were written
    in full, which are all of them exactly when sending succeeded.
    */
  method Exchange(stream: Tcp.TcpStream, sender: Limits, messages: seq<Message>, d: StreamDecoder)
    returns (ok: bool, received: seq<Message>, ghost k: nat, ghost part: nat)
    modifies stream, stream.os`open, stream.os`released, stream.os`sockets, stream.os`replies, d
    requires stream.Valid() && stream.Connected() && stream.Written(stream.Handle()) == []
    requires d.Valid() && d.limits.Valid() && d.session == FRESH
    requires forall m :: m in messages && Encodable(sender, m) ==> Encodable(d.limits, m)
    ensures old(stream.Handle()) in stream.os.sockets
    ensures FramesAndPart(sender, messages, k, part, stream.Written(old(stream.Handle())))
    ensures received == messages[..k]
    ensures ok <==> k == |messages|
  {
    hide Wire, Encodable, Probe, Parse;
    var h := stream.implementation.value.socket.handle;
    ghost var sent;
    ok, sent, k, part := SendMessages(stream, sender, messages);
    var wire := stream.os.sockets[h].written;
    assert wire == [] + sent == sent;
    var error;
    received, error := Pump(d, wire);
    FramesAndPartParse(d.limits, messages, k, part, sent);
  }

  lemma FramesAndPartParse(limits: Limits, messages: seq<Message>, k: nat, part: nat, bytes: Bytes)
    requires FramesAndPart(limits, messages, k, part, bytes)
    ensures Parse(limits, bytes).messages == messages[..k] && !Parse(limits, bytes).status.Broken?
  {
    hide Wire, Encodable, Probe, Parse;
    if part == 0 {
      ParseOfWires(limits, messages[..k], []);
      EndToEnd.ParseNothing(limits);
      assert messages[..k] + [] == messages[..k];
    } else {
      EndToEnd.PartialFrameParse(limits, messages[..k], messages[k], part);
    }
  }

  // ---------- Receiving from a stream ----------

  // The bytes that a read of the system delivered.
  function Payload(arrival: Sockets.Io<Bytes>): (r: Bytes) {
    if arrival.Done? then arrival.value else []
  }

  // One read, and what the system answered to it; a stream that is not connected is not read.
  method ReadChunk(stream: Tcp.TcpStream, capacity: nat)
    returns (r: Sockets.Io<Bytes>, ghost arrived: seq<Sockets.Io<Bytes>>)
    modifies stream, stream.os`open, stream.os`released, stream.os`arrivals
    requires stream.Valid() && capacity > 0
    ensures stream.Valid()
    ensures stream.os.arrivals == old(stream.os.arrivals) + arrived && |arrived| <= 1
    ensures Flatten(Payload, arrived) == if r.Done? then r.value else []
    ensures r.Done? ==> |arrived| == 1 && |r.value| <= capacity
    ensures r.Fault? ==> !stream.Connected()
  {
    hide Sockets.Conserves;
    arrived := [];
    assert stream.os.arrivals + [] == stream.os.arrivals;
    if stream.Connected() {
      r := stream.Receive(capacity);
      arrived := [stream.os.arrivals[|stream.os.arrivals| - 1]];
      FlattenFirst(Payload, arrived);
      assert arrived[1..] == [];
    } else {
      r := stream.Receive(capacity);
    }
  }

  /**
    Reads a stream at most `rounds` times, in chunks the decoder always has room for, and decodes as it
    goes: the messages, and the error, are the reference parser's on all that the system delivered.
    */
  method ReceiveMessages(stream: Tcp.TcpStream, d: StreamDecoder, capacity: nat, rounds: nat)
    returns (received: seq<Message>, error: Option<ErrorCode>, stop: Option<Sockets.TransportError>,
             ghost made: seq<Sockets.Io<Bytes>>)
    modifies stream, stream.os`open, stream.os`released, stream.os`arrivals, d
    requires stream.Valid() && d.Valid() && d.limits.Valid() && d.session == FRESH
    requires 0 < capacity <= d.limits.maxBufferedBytes - Admission.LongestPartial(d.limits)
    ensures stream.Valid() && d.Valid()
    ensures stream.os.arrivals == old(stream.os.arrivals) + made && |made| <= rounds
    ensures Reports(d.limits, Flatten(Payload, made), received, error)
    ensures stop.Some? ==> !stream.Connected() && error.None?
    ensures stop.None? && error.None? ==> |made| == rounds
  {
    received, error, stop, made := [], None, None, [];
    assert NextOutcome(d.limits, d.session) == NoMessage && d.session.accepted == Flatten(Payload, made);
    hide Probe, Parse, Step, NextOutcome, Conserved, Reports, Flatten, Admission.LongestPartial;
    assert stream.os.arrivals + made == stream.os.arrivals;
    var i := 0;
    while i < rounds && error.None? && stop.None?
      invariant i <= rounds && |made| <= i && (stop.None? ==> |made| == i)
      invariant stream.Valid() && d.Valid() && received == d.session.emitted
      invariant stream.os.arrivals == old(stream.os.arrivals) + made
      invariant d.session.accepted == Flatten(Payload, made)
      invariant NextOutcome(d.limits, d.session) == if error.Some? then Failed(error.value) else NoMessage
      invariant stop.Some? ==> !stream.Connected() && error.None?
    {
      ghost var arrived;
      received, error, stop, arrived := Round(stream, d, capacity, received);
      Reassociate(old(stream.os.arrivals), made, arrived);
      FlattenAppend(Payload, made, arrived);
      made := made + arrived;
      i := i + 1;
    }
    ReportsNow(d.limits, d.session, error);
  }

  // Reads once and decodes what arrived.
  method Round(stream: Tcp.TcpStream, d: StreamDecoder, capacity: nat, before: seq<Message>)
    returns (received: seq<Message>, error: Option<ErrorCode>, stop: Option<Sockets.TransportError>,
             ghost arrived: seq<Sockets.Io<Bytes>>)
    modifies stream, stream.os`open, stream.os`released, stream.os`arrivals, d
    requires stream.Valid() && d.Valid() && d.limits.Valid() && before == d.session.emitted
    requires NextOutcome(d.limits, d.session) == NoMessage
    requires 0 < capacity <= d.limits.maxBufferedBytes - Admission.LongestPartial(d.limits)
    ensures stream.Valid() && d.Valid() && received == d.session.emitted
    ensures stream.os.arrivals == old(stream.os.arrivals) + arrived && |arrived| <= 1 && (stop.None? ==> |arrived| == 1)
    ensures d.session.accepted == old(d.session).accepted + Flatten(Payload, arrived)
    ensures NextOutcome(d.limits, d.session) == if error.Some? then Failed(error.value) else NoMessage
    ensures stop.Some? ==> !stream.Connected() && error.None?
  {
    hide Probe, Step, NextOutcome, Conserved, Flatten, Admission.LongestPartial;
    received, error, stop := before, None, None;
    var chunk;
    chunk, arrived := ReadChunk(stream, capacity);
    if chunk.Fault? {
      assert d.session.accepted + [] == d.session.accepted;
      stop := Some(chunk.error);
      return;
    }
    Admission.SmallChunkAdmitted(d.limits, d.session, chunk.value);
    received, error := Feed(d, chunk.value, before);
  }

  // The reference parser's messages and error.
  ghost predicate Reports(limits: Limits, bytes: Bytes, received: seq<Message>, error: Option<ErrorCode>) {
    var parsed := Parse(limits, bytes);
    received == parsed.messages && error == if parsed.status.Broken? then Some(parsed.status.error) else None
  }

  lemma ReportsNow(limits: Limits, s: Session, error: Option<ErrorCode>)
    requires Conserved(limits, s)
    requires NextOutcome(limits, s) == if error.Some? then Failed(error.value) else NoMessage
    ensures Reports(limits, s.accepted, s.emitted, error)
  {
    hide Probe, Parse, Conserved, NextOutcome;
    if error.Some? {
      BrokenForever(limits, s, []);
      assert s.accepted + [] == s.accepted;
    } else {
      RunEnds(limits, s);
    }
  }

  // The parser on a part of an input it does not reject finds the first messages, and no error.
  lemma ParseOfPart(limits: Limits, part: Bytes, rest: Bytes)
    requires !Parse(limits, part + rest).status.Broken?
    ensures Parse(limits, part).messages <= Parse(limits, part + rest).messages
    ensures !Parse(limits, part).status.Broken?
  {
    hide Probe, Parse, Wire, Encodable, Deserves;
    var p := Parse(limits, part);
    ParseSplits(limits, part);
    Reassociate(WireAll(p.messages), p.rest, rest);
    ParseOfWires(limits, p.messages, p.rest + rest);
    if p.status.Broken? {
      StaysBroken(limits, p.rest, rest, p.status.error);
    }
  }

  lemma StaysBroken(limits: Limits, s: Bytes, rest: Bytes, e: ErrorCode)
    requires s != [] && Deserves(limits, s, e)
    ensures Parse(limits, s + rest).status == Broken(e)
  {
    hide Probe, Deserves, MessageAt;
    ErrorsExactly(limits, s, e);
    ProbeStable(limits, s, rest);
  }

  lemma FramesForReceiver(
    sender: Limits, limits: Limits, messages: seq<Message>, k: nat, part: nat, bytes: Bytes)
    requires FramesAndPart(sender, messages, k, part, bytes)
    requires forall m :: m in messages && Encodable(sender, m) ==> Encodable(limits, m)
    ensures k <= |messages| && FramesAndPart(limits, messages, k, part, bytes)
  {
    hide Wire, Encodable;
  }

  lemma ReceivedPart(
    limits: Limits, messages: seq<Message>, k: nat, part: nat, sent: Bytes, delivered: Bytes, received: seq<Message>,
    error: Option<ErrorCode>)
    requires FramesAndPart(limits, messages, k, part, sent) && Reports(limits, delivered, received, error)
    ensures delivered <= sent ==> received <= messages[..k] && error.None?
    ensures delivered == sent ==> received == messages[..k]
  {
    hide Parse;
    FramesAndPartParse(limits, messages, k, part, sent);
    if delivered <= sent {
      assert delivered + sent[|delivered|..] == sent;
      ParseOfPart(limits, delivered, sent[|delivered|..]);
    }
  }

  /**
    One machine sends and another receives. If the network delivers a part of what was written, in
    order, the receiver gets the first messages and no error; if it delivers all of it, exactly the k
    messages whose frames were written in full.
    */
  method Converse(
    from: Tcp.TcpStream, sender: Limits, messages: seq<Message>, to: Tcp.TcpStream, d: StreamDecoder, capacity: nat,
    rounds: nat)
    returns (ok: bool, received: seq<Message>, error: Option<ErrorCode>, ghost sent: Bytes, ghost k: nat,
             ghost delivered: Bytes)
    modifies from, from.os`open, from.os`released, from.os`sockets, from.os`replies
    modifies to, to.os`open, to.os`released, to.os`arrivals, d
    requires from.os != to.os && from != to
    requires from.Valid() && from.Connected() && from.Written(from.Handle()) == [] && to.Valid()
    requires d.Valid() && d.limits.Valid() && d.session == FRESH
    requires forall m :: m in messages && Encodable(sender, m) ==> Encodable(d.limits, m)
    requires 0 < capacity <= d.limits.maxBufferedBytes - Admission.LongestPartial(d.limits)
    ensures old(from.Handle()) in from.os.sockets && from.Written(old(from.Handle())) == sent
    ensures k <= |messages| && (ok <==> k == |messages|)
    ensures Reports(d.limits, delivered, received, error)
    ensures delivered <= sent ==> received <= messages[..k] && error.None?
    ensures delivered == sent ==> received == messages[..k]
  {
    hide Wire, Encodable, Probe, Parse, Sockets.Conserves, Admission.LongestPartial, FramesAndPart, Reports, Flatten;
    ghost var part;
    ok, sent, k, part := SendMessages(from, sender, messages);
    assert [] + sent == sent;
    ghost var made;
    var stop;
    received, error, stop, made := ReceiveMessages(to, d, capacity, rounds);
    delivered := Flatten(Payload, made);
    FramesForReceiver(sender, d.limits, messages, k, part, sent);
    ReceivedPart(d.limits, messages, k, part, sent, delivered, received, error);
  }
}
