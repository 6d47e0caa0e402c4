/**
  One connection end to end: a sender that encodes messages and writes them with arbitrary partial
  writes and failures, a first-in first-out byte channel, and a receiver that feeds whatever chunks
  arrive to its decoder and offers a rejected chunk again.
  */
module EndToEnd {
  import opened Words
  import opened Types
  import opened Frame
  import opened FrameTheorems
  import opened Stream
  import opened StreamTheorems
  import opened Admission

  datatype Link = Link(
    begun: seq<Message>,    // messages handed to the sending loop, in order
    outgoing: Bytes,        // bytes of the current frame not written yet
    up: bool,               // the sender's stream is still connected
    inFlight: Bytes,        // written and not received yet
    pending: Bytes,         // a received chunk that the decoder has not accepted yet
    receiver: Session)

  const IDLE := Link([], [], true, [], [], FRESH)

  datatype Event =
    | Begin(message: Message)   // the previous frame is out; encode the next one
    | Write(count: nat)         // the system takes some bytes
    | Break                     // a write fails or the stream is closed
    | Deliver(count: nat)       // a chunk of any size arrives
    | Offer                     // push the pending chunk
    | Poll                      // call next

  predicate Enabled(sender: Limits, limits: Limits, l: Link, e: Event) {
    match e
    case Begin(m) => l.up && l.outgoing == [] && Encodable(sender, m) && Encodable(limits, m)
    case Write(count) => l.up && 0 < count <= |l.outgoing|
    case Break => true
    case Deliver(count) => l.pending == [] && 0 < count <= |l.inFlight|
    case Offer => l.pending != []
    case Poll => true
  }

  function Apply(sender: Limits, limits: Limits, l: Link, e: Event): (r: Link)
    requires Enabled(sender, limits, l, e)
  {
    match e
    case Begin(m) => l.(begun := l.begun + [m], outgoing := Wire(m))
    case Write(count) => l.(outgoing := l.outgoing[count..], inFlight := l.inFlight + l.outgoing[..count])
    case Break => l.(up := false)
    case Deliver(count) => l.(pending := l.inFlight[..count], inFlight := l.inFlight[count..])
    case Offer =>
      var step := Step(limits, l.receiver, Push(l.pending));
      l.(receiver := step.0, pending := if step.1 == Accepted then [] else l.pending)
    case Poll => l.(receiver := Step(limits, l.receiver, Next).0)
  }

  ghost predicate IsRun(sender: Limits, limits: Limits, links: seq<Link>, events: seq<Event>) {
    && |links| == |events| + 1
    && links[0] == IDLE
    && forall i :: 0 <= i < |events| ==>
         Enabled(sender, limits, links[i], events[i]) && links[i + 1] == Apply(sender, limits, links[i], events[i])
  }

  // Every byte of every frame begun is somewhere: accepted, pending, in flight or still to be written.
  ghost predicate Accounted(limits: Limits, l: Link) {
    && AllEncodable(limits, l.begun)
    && Conserved(limits, l.receiver)
    && l.receiver.accepted + l.pending + l.inFlight + l.outgoing == WireAll(l.begun)
    && (l.outgoing != [] ==> l.begun != [] && |l.outgoing| <= |Wire(l.begun[|l.begun| - 1])|)
  }

  lemma EventKeepsAccounts(sender: Limits, limits: Limits, l: Link, e: Event)
    requires Accounted(limits, l) && Enabled(sender, limits, l, e)
    ensures Accounted(limits, Apply(sender, limits, l, e))
  {
    hide Wire, Probe, Encodable, MessageAt;
    var settled := l.receiver.accepted + l.pending;
    match e
    case Begin(m) =>
      FlattenSnoc(Wire, l.begun, m);
      assert settled + l.inFlight + [] == settled + l.inFlight;
    case Write(count) =>
      assert settled + (l.inFlight + l.outgoing[..count]) + l.outgoing[count..] == settled + l.inFlight + l.outgoing;
    case Break =>
    case Deliver(count) =>
      assert l.receiver.accepted + l.inFlight[..count] + l.inFlight[count..] == l.receiver.accepted + [] + l.inFlight;
    case Offer =>
      StepConserves(limits, l.receiver, Push(l.pending));
      assert settled + [] == settled;
    case Poll =>
      StepConserves(limits, l.receiver, Next);
  }

  lemma {:induction false} RunKeepsAccounts(
    sender: Limits, limits: Limits, links: seq<Link>, events: seq<Event>, n: nat)
    requires IsRun(sender, limits, links, events) && n < |links|
    ensures Accounted(limits, links[n])
  {
    if n > 0 {
      RunKeepsAccounts(sender, limits, links, events, n - 1);
      EventKeepsAccounts(sender, limits, links[n - 1], events[n - 1]);
    }
  }

  // ---------- Frames at the front of frames ----------

  /** Frames followed by anything, when that is a sequence of frames, are its first frames. */
  lemma FramesInFront(limits: Limits, a: seq<Message>, rest: Bytes, b: seq<Message>)
    requires AllEncodable(limits, a) && AllEncodable(limits, b) && WireAll(a) + rest == WireAll(b)
    ensures a <= b && rest == WireAll(b[|a|..])
  {
    hide Wire, Parse, Encodable;
    ParseOfWires(limits, a, rest);
    ParseOfWires(limits, b, []);
    ParseNothing(limits);
    assert WireAll(b) + [] == WireAll(b) && b + [] == b;
    var others := b[|a|..];
    assert b == a + others;
    FlattenAppend(Wire, a, others);
    assert WireAll(b) == WireAll(a) + WireAll(others);
    assert (WireAll(a) + rest)[|WireAll(a)|..] == (WireAll(a) + WireAll(others))[|WireAll(a)|..];
  }

  lemma ParseNothing(limits: Limits)
    ensures Parse(limits, []) == Parsed([], Drained, [])
  {
  }

  /** The start of a sequence of frames is never an error. */
  lemma FramesNeverFail(limits: Limits, unread: Bytes, rest: Bytes, messages: seq<Message>)
    requires AllEncodable(limits, messages) && unread != [] && unread + rest == WireAll(messages)
    ensures Probe(limits, unread).Ok?
  {
    hide Wire, Probe, Encodable;
    var m := messages[0];
    assert m in messages;
    WireIsReady(limits, m, WireAll(messages[1..]));
    if Probe(limits, unread).Err? {
      ProbeStable(limits, unread, rest);
    }
  }

  // ---------- What the receiver sees ----------

  lemma AccountedIsPrefix(limits: Limits, l: Link)
    requires Accounted(limits, l)
    ensures l.receiver.emitted <= l.begun
    ensures !NextOutcome(limits, l.receiver).Failed?
  {
    hide Wire, Encodable, Probe, MessageAt;
    var emitted, unread := l.receiver.emitted, l.receiver.unread;
    var rest := l.pending + l.inFlight + l.outgoing;
    assert WireAll(emitted) + (unread + rest) == l.receiver.accepted + l.pending + l.inFlight + l.outgoing;
    FramesInFront(limits, emitted, unread + rest, l.begun);
    if unread != [] {
      FramesNeverFail(limits, unread, rest, l.begun[|emitted|..]);
    }
  }

  /** In every run the messages received are the first ones sent, in order, and decoding never fails. */
  lemma ReceivedIsPrefix(sender: Limits, limits: Limits, links: seq<Link>, events: seq<Event>, n: nat)
    requires IsRun(sender, limits, links, events) && n < |links|
    ensures links[n].receiver.emitted <= links[n].begun
    ensures !NextOutcome(limits, links[n].receiver).Failed?
  {
    RunKeepsAccounts(sender, limits, links, events, n);
    AccountedIsPrefix(limits, links[n]);
  }

  // Everything written has been delivered, accepted and drained.
  ghost predicate Quiet(limits: Limits, l: Link) {
    l.inFlight == [] && l.pending == [] && !NextOutcome(limits, l.receiver).Emitted?
  }

  lemma DrainedParse(limits: Limits, s: Session)
    requires Conserved(limits, s) && !NextOutcome(limits, s).Emitted?
    ensures Parse(limits, s.accepted).messages == s.emitted && Parse(limits, s.accepted).rest == s.unread
  {
    hide Wire, Parse, Encodable, Probe, MessageAt;
    ParseOfWires(limits, s.emitted, s.unread);
    SettledParse(limits, s);
    assert s.emitted + [] == s.emitted;
  }

  lemma PartialFrameParse(limits: Limits, messages: seq<Message>, last: Message, k: nat)
    requires AllEncodable(limits, messages) && Encodable(limits, last) && k < |Wire(last)|
    ensures var p := Parse(limits, WireAll(messages) + Wire(last)[..k]);
            p.messages == messages && p.rest == Wire(last)[..k] && !p.status.Broken?
  {
    hide Wire, Encodable, Probe, MessageAt;
    ProperPrefixIncomplete(limits, last, k);
    ParseOfWires(limits, messages, Wire(last)[..k]);
    assert Parse(limits, Wire(last)[..k]).messages == [];
    assert messages + [] == messages;
  }

  // The messages whose frames were written in full: all begun, or all but the one cut short.
  function Complete(l: Link): (r: seq<Message>) {
    if l.outgoing == [] || l.begun == [] then l.begun else l.begun[..|l.begun| - 1]
  }

  lemma AccountedQuiet(limits: Limits, l: Link)
    requires Accounted(limits, l) && Quiet(limits, l)
    ensures l.receiver.emitted == Complete(l)
    ensures l.outgoing == [] ==> l.receiver.unread == []
  {
    hide Wire, Encodable, Parse, Probe, MessageAt;
    DrainedParse(limits, l.receiver);
    assert l.receiver.accepted + [] + [] + l.outgoing == l.receiver.accepted + l.outgoing;
    if l.outgoing == [] {
      ParseOfWires(limits, l.begun, []);
      ParseNothing(limits);
      assert WireAll(l.begun) + [] == l.receiver.accepted;
      assert l.begun + [] == l.begun;
    } else {
      var first, last := l.begun[..|l.begun| - 1], l.begun[|l.begun| - 1];
      var k := |Wire(last)| - |l.outgoing|;
      assert l.begun == first + [last];
      FlattenSnoc(Wire, first, last);
      assert l.receiver.accepted == WireAll(first) + Wire(last)[..k] by {
        var size := |WireAll(first)| + k;
        assert (l.receiver.accepted + l.outgoing)[..size] == (WireAll(first) + Wire(last))[..size];
      }
      PartialFrameParse(limits, first, last, k);
    }
  }

  /**
    When all that was written has arrived and is drained, the receiver has exactly the messages that
    were sent in full: all of them, or all but the one whose sending was cut short.
    */
  lemma QuietMeansDelivered(sender: Limits, limits: Limits, links: seq<Link>, events: seq<Event>, n: nat)
    requires IsRun(sender, limits, links, events) && n < |links| && Quiet(limits, links[n])
    ensures links[n].outgoing != [] ==> links[n].begun != []
    ensures links[n].receiver.emitted == Complete(links[n])
    ensures links[n].outgoing == [] ==> links[n].receiver.unread == []
  {
    RunKeepsAccounts(sender, limits, links, events, n);
    AccountedQuiet(limits, links[n]);
  }

  // ---------- Progress ----------

  // The limits that both sides keep.
  function Common(a: Limits, b: Limits): (r: Limits) {
    Limits(Min(a.maxPayloadSize, b.maxPayloadSize), Min(a.maxExtensionCount, b.maxExtensionCount),
           Min(a.maxExtensionBytes, b.maxExtensionBytes), Min(a.maxFrameSize, b.maxFrameSize),
           Min(a.maxBufferedBytes, b.maxBufferedBytes))
  }

  lemma EncodableForBoth(a: Limits, b: Limits, m: Message)
    requires a.Valid() && b.Valid()
    ensures Common(a, b).Valid()
    ensures Encodable(Common(a, b), m) <==> Encodable(a, m) && Encodable(b, m)
  {
  }

  // The largest chunk that a drained receiver of this sender's frames is sure to admit.
  function Room(sender: Limits, limits: Limits): (r: int) {
    limits.maxBufferedBytes - LongestFrame(Common(sender, limits)) + 1
  }

  ghost predicate Goes(sender: Limits, limits: Limits, l: Link, events: seq<Event>, l': Link)
    decreases |events|
  {
    if events == [] then l' == l
    else
      && Enabled(sender, limits, l, events[0])
      && Goes(sender, limits, Apply(sender, limits, l, events[0]), events[1..], l')
  }

  // What the receiving side does on its own.
  predicate Receives(e: Event) {
    e.Deliver? || e.Offer? || e.Poll?
  }

  lemma {:induction false} OnlyEncodableSent(
    sender: Limits, limits: Limits, links: seq<Link>, events: seq<Event>, n: nat)
    requires IsRun(sender, limits, links, events) && n < |links|
    ensures AllEncodable(sender, links[n].begun)
  {
    hide Encodable, Wire, Step;
    if n > 0 {
      OnlyEncodableSent(sender, limits, links, events, n - 1);
      assert Enabled(sender, limits, links[n - 1], events[n - 1]);
    }
  }

  // What a drained receiver still holds is a proper part of one frame.
  lemma DrainedIsPartOfFrame(sender: Limits, limits: Limits, l: Link)
    requires limits.Valid() && Accounted(limits, l) && AllEncodable(sender, l.begun)
    requires NextOutcome(limits, l.receiver) == NoMessage
    ensures |l.receiver.unread| < LongestFrame(Common(sender, limits))
  {
    hide Wire, Encodable, Probe, MessageAt;
    var emitted, unread := l.receiver.emitted, l.receiver.unread;
    var rest := l.pending + l.inFlight + l.outgoing;
    assert WireAll(emitted) + (unread + rest) == l.receiver.accepted + l.pending + l.inFlight + l.outgoing;
    FramesInFront(limits, emitted, unread + rest, l.begun);
    if unread != [] {
      var others := l.begun[|emitted|..];
      var m := others[0];
      assert m in l.begun;
      FlattenFirst(Wire, others);
      SenderIsValid(sender, m);
      EncodableForBoth(sender, limits, m);
      FrameIsBounded(Common(sender, limits), m);
      NotYetWhole(limits, m, WireAll(others[1..]), unread, rest);
    }
  }

  lemma SenderIsValid(sender: Limits, m: Message)
    requires Encodable(sender, m)
    ensures sender.Valid()
  {
  }

  lemma NotYetWhole(limits: Limits, m: Message, tail: Bytes, unread: Bytes, rest: Bytes)
    requires Encodable(limits, m) && Wire(m) + tail == unread + rest && IsIncomplete(limits, unread)
    ensures |unread| < |Wire(m)|
  {
    hide Wire, Encodable, Probe, MessageAt;
    if |unread| >= |Wire(m)| {
      var more := unread[|Wire(m)|..];
      assert unread == Wire(m) + more by {
        assert (Wire(m) + tail)[..|Wire(m)|] == (unread + rest)[..|Wire(m)|];
      }
      WireIsReady(limits, m, more);
    }
  }

  // The next step of a receiver that is not quiet: drain first, then offer, then read at most `room` bytes.
  function NextEvent(limits: Limits, l: Link, room: nat): (e: Event) {
    if NextOutcome(limits, l.receiver).Emitted? then Poll
    else if l.pending != [] then Offer
    else Deliver(Min(room, |l.inFlight|))
  }

  lemma NextEventHelps(sender: Limits, limits: Limits, l: Link, room: nat)
    requires limits.Valid() && Accounted(limits, l) && AllEncodable(sender, l.begun) && !Quiet(limits, l)
    requires 0 < room <= Room(sender, limits) && |l.pending| <= room
    ensures var e := NextEvent(limits, l, room);
            && Enabled(sender, limits, l, e)
            && var l' := Apply(sender, limits, l, e);
               && |l'.pending| <= room
               && l'.begun == l.begun && l'.outgoing == l.outgoing && l'.up == l.up
               && Accounted(limits, l')
               && |l'.inFlight| <= |l.inFlight|
               && (|l'.inFlight| < |l.inFlight|
                   || |l'.pending| < |l.pending|
                   || (|l'.pending| == |l.pending| && |l'.receiver.unread| < |l.receiver.unread|))
  {
    hide LongestFrame, Accounted, AllEncodable, Probe, MessageAt, Encodable, Wire;
    var e := NextEvent(limits, l, room);
    AccountedIsPrefix(limits, l);
    EventKeepsAccounts(sender, limits, l, e);
    if e.Offer? {
      DrainedIsPartOfFrame(sender, limits, l);
    } else if e.Poll? {
      ReadyIsWhole(limits, l.receiver.unread);
    }
  }

  lemma {:induction false} Settles(sender: Limits, limits: Limits, l: Link, room: nat)
    returns (events: seq<Event>, l': Link)
    requires limits.Valid() && Accounted(limits, l) && AllEncodable(sender, l.begun)
    requires 0 < room <= Room(sender, limits) && |l.pending| <= room
    ensures Goes(sender, limits, l, events, l') && (forall e :: e in events ==> Receives(e))
    ensures Quiet(limits, l') && Accounted(limits, l')
    ensures l'.begun == l.begun && l'.outgoing == l.outgoing && l'.up == l.up
    decreases |l.inFlight|, |l.pending|, |l.receiver.unread|
  {
    hide Quiet, Accounted, AllEncodable, Apply, Enabled, Room;
    if Quiet(limits, l) {
      events, l' := [], l;
    } else {
      var e := NextEvent(limits, l, room);
      NextEventHelps(sender, limits, l, room);
      var rest;
      rest, l' := Settles(sender, limits, Apply(sender, limits, l, e), room);
      events := [e] + rest;
      assert events[1..] == rest;
    }
  }

  /**
    No run is ever stuck: as long as reads are within the room that a drained receiver of this sender
    always has, the receiving side alone gets from wherever the run is to having every message that
    was written in full.
    */
  lemma EveryRunSettles(sender: Limits, limits: Limits, links: seq<Link>, events: seq<Event>, n: nat, room: nat)
    returns (more: seq<Event>, l': Link)
    requires IsRun(sender, limits, links, events) && n < |links| && limits.Valid()
    requires 0 < room <= Room(sender, limits) && |links[n].pending| <= room
    ensures Goes(sender, limits, links[n], more, l') && (forall e :: e in more ==> Receives(e))
    ensures Quiet(limits, l') && l'.begun == links[n].begun
    ensures l'.receiver.emitted == Complete(links[n])
  {
    hide Room, Accounted, AllEncodable;
    RunKeepsAccounts(sender, limits, links, events, n);
    OnlyEncodableSent(sender, limits, links, events, n);
    more, l' := Settles(sender, limits, links[n], room);
    AccountedQuiet(limits, l');
  }

  // ---------- Reads that are too large ----------

  lemma Take(sender: Limits, limits: Limits, links: seq<Link>, events: seq<Event>, e: Event)
    returns (links': seq<Link>, events': seq<Event>)
    requires IsRun(sender, limits, links, events) && Enabled(sender, limits, links[|events|], e)
    ensures IsRun(sender, limits, links', events')
    ensures links'[|events'|] == Apply(sender, limits, links[|events|], e)
  {
    hide Enabled, Apply;
    links', events' := links + [Apply(sender, limits, links[|events|], e)], events + [e];
  }

  // A sender can write a message any number of times before anything is read.
  lemma {:induction false} SendCopies(sender: Limits, limits: Limits, m: Message, n: nat)
    returns (links: seq<Link>, events: seq<Event>, sent: seq<Message>)
    requires Encodable(sender, m) && Encodable(limits, m) && n > 0
    ensures IsRun(sender, limits, links, events)
    ensures links[|events|] == Link(sent, [], true, WireAll(sent), [], FRESH)
    ensures Wire(m) <= WireAll(sent) && |WireAll(sent)| >= |Wire(m)| + n - 1
  {
    hide Wire, Encodable, Step;
    if n == 1 {
      links, events, sent := [IDLE], [], [];
    } else {
      links, events, sent := SendCopies(sender, limits, m, n - 1);
    }
    WireLength(m);
    var before := WireAll(sent);
    links, events := Take(sender, limits, links, events, Begin(m));
    links, events := Take(sender, limits, links, events, Write(|Wire(m)|));
    FlattenSnoc(Wire, sent, m);
    sent := sent + [m];
    assert WireAll(sent) == before + Wire(m);
    assert Wire(m)[..|Wire(m)|] == Wire(m) && [] + Wire(m) == Wire(m);
  }

  // No receiving event changes anything.
  ghost predicate Stuck(sender: Limits, limits: Limits, l: Link) {
    && l.pending != []
    && forall e :: Receives(e) && Enabled(sender, limits, l, e) ==> Apply(sender, limits, l, e) == l
  }

  lemma StuckBehind(sender: Limits, limits: Limits, l: Link)
    requires limits.Valid() && IsIncomplete(limits, l.receiver.unread) && l.pending != []
    requires |l.receiver.unread| + |l.pending| > limits.maxBufferedBytes
    ensures Stuck(sender, limits, l)
  {
    hide Probe, MessageAt;
  }

  // The receiver takes a partial frame, and then reads a chunk.
  lemma ReadPartAndChunk(
    sender: Limits, limits: Limits, links: seq<Link>, events: seq<Event>, wire: Bytes, part: nat, chunk: nat)
    returns (links': seq<Link>, events': seq<Event>)
    requires IsRun(sender, limits, links, events) && limits.Valid() && 0 < part <= limits.maxBufferedBytes && 0 < chunk
    requires links[|events|] == Link(links[|events|].begun, [], true, wire, [], FRESH) && part + chunk <= |wire|
    ensures IsRun(sender, limits, links', events')
    ensures var l := links'[|events'|];
            l.receiver.unread == wire[..part] && l.pending == wire[part..][..chunk]
  {
    hide Probe, MessageAt, Encodable, Wire;
    links', events' := Take(sender, limits, links, events, Deliver(part));
    links', events' := Take(sender, limits, links', events', Offer);
    assert [] + wire[..part] == wire[..part];
    links', events' := Take(sender, limits, links', events', Deliver(chunk));
  }

  /**
    With any larger read some run is stuck for good: behind all but one byte of the longest frame the
    receiver has no message, and rejects the chunk each time it is offered.
    */
  lemma LargerReadSticks(sender: Limits, limits: Limits, room: nat)
    returns (links: seq<Link>, events: seq<Event>)
    requires sender.Valid() && limits.Valid() && room > Room(sender, limits)
    ensures IsRun(sender, limits, links, events)
    ensures |links[|events|].pending| <= room && Stuck(sender, limits, links[|events|])
  {
    hide Wire, Encodable, LongestFrame, Probe, MessageAt, Enabled, Apply, Stuck;
    EncodableForBoth(sender, limits, Message(Version(0, 0), 0, 0, [], 0, []));
    var m := LongestFrameExists(Common(sender, limits));
    EncodableForBoth(sender, limits, m);
    WireIsReady(limits, m, []);
    WireLength(m);
    var part, chunk := |Wire(m)| - 1, Room(sender, limits) + 1;
    var sent;
    links, events, sent := SendCopies(sender, limits, m, chunk);
    var wire := WireAll(sent);
    links, events := ReadPartAndChunk(sender, limits, links, events, wire, part, chunk);
    ProperPrefixIncomplete(limits, m, part);
    assert wire[..part] == Wire(m)[..part];
    StuckBehind(sender, limits, links[|events|]);
  }
}
