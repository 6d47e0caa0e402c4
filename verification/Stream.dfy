/**
  The incremental decoder. `Session` is its abstract state: what is buffered and unread, what was
  accepted and what was emitted since the last reset. `StreamDecoder` is the buffer-and-cursor
  implementation with lazy compaction; its methods are proved to take exactly the abstract steps.
  */
module Stream {
  import opened Options
  import opened Words
  import opened Types
  import opened Frame
  import opened FrameTheorems
  import opened Codec

  // ---------- The reference parser ----------

  datatype Status = Drained | Partial | Broken(error: ErrorCode)
  datatype Parsed = Parsed(messages: seq<Message>, status: Status, rest: Bytes)

  // Parses a whole byte string in one go.
  function Parse(limits: Limits, s: Bytes): (r: Parsed)
    decreases |s|
  {
    if s == [] then
      Parsed([], Drained, [])
    else
      match Probe(limits, s)
      case Err(e) => Parsed([], Broken(e), s)
      case Ok(p) =>
        if p.state == Incomplete then
          Parsed([], Partial, s)
        else
          var tail := Parse(limits, s[p.frameSize..]);
          Parsed([MessageAt(limits, s)] + tail.messages, tail.status, tail.rest)
  }

  function WireAll(messages: seq<Message>): (r: Bytes) {
    Flatten(Wire, messages)
  }

  ghost predicate AllEncodable(limits: Limits, messages: seq<Message>) {
    forall m :: m in messages ==> Encodable(limits, m)
  }

  // ---------- The abstract decoder ----------

  datatype Op = Push(chunk: Bytes) | Next | Reset
  datatype Outcome =
    | Accepted | Rejected(error: ErrorCode)
    | Emitted(message: Message) | NoMessage | Failed(error: ErrorCode)
    | Cleared

  datatype Session = Session(unread: Bytes, accepted: Bytes, emitted: seq<Message>)
  const FRESH := Session([], [], [])

  function Step(limits: Limits, s: Session, op: Op): (r: (Session, Outcome)) {
    match op
    case Push(chunk) =>
      if !limits.Valid() then (s, Rejected(InvalidArgument))
      else if |s.unread| + |chunk| > limits.maxBufferedBytes then (s, Rejected(LimitExceeded))
      else (Session(s.unread + chunk, s.accepted + chunk, s.emitted), Accepted)
    case Next =>
      if s.unread == [] then (s, NoMessage)
      else
        (match Probe(limits, s.unread)
         case Err(e) => (s, Failed(e))
         case Ok(p) =>
           if p.state == Incomplete then (s, NoMessage)
           else
             var m := MessageAt(limits, s.unread);
             (Session(s.unread[p.frameSize..], s.accepted, s.emitted + [m]), Emitted(m)))
    case Reset => (FRESH, Cleared)
  }

  // Nothing is lost or invented: the accepted bytes are the emitted frames followed by the unread bytes.
  ghost predicate Conserved(limits: Limits, s: Session) {
    && AllEncodable(limits, s.emitted)
    && s.accepted == WireAll(s.emitted) + s.unread
  }

  lemma StepConserves(limits: Limits, s: Session, op: Op)
    requires Conserved(limits, s)
    ensures Conserved(limits, Step(limits, s, op).0)
  {
    hide Probe, MessageAt, Wire;
    if op.Next? && IsReady(limits, s.unread) {
      var n, m := Probe(limits, s.unread).value.frameSize, MessageAt(limits, s.unread);
      FirstFrame(limits, s.unread);
      FlattenSnoc(Wire, s.emitted, m);
      Reassociate(WireAll(s.emitted), Wire(m), s.unread[n..]);
    } else if op.Push? {
      Reassociate(WireAll(s.emitted), s.unread, op.chunk);
    }
  }

  lemma NextDropsFrame(limits: Limits, s: Session, size: Size)
    requires IsReady(limits, s.unread) && size == Probe(limits, s.unread).value.frameSize
    ensures WIRE_HEADER_SIZE <= size <= |s.unread|
    ensures Step(limits, s, Next).0.unread == s.unread[size..]
  {
  }

  // A ready input is the frame of its first message followed by the rest.
  lemma FirstFrame(limits: Limits, s: Bytes)
    requires IsReady(limits, s)
    ensures var n, m := Probe(limits, s).value.frameSize, MessageAt(limits, s);
            && WIRE_HEADER_SIZE <= n == |Wire(m)| <= |s|
            && Encodable(limits, m)
            && s == Wire(m) + s[n..]
  {
    hide Probe, MessageAt, Wire;
    WireLength(MessageAt(limits, s));
    Canonicity(limits, s);
  }

  // ---------- The implementation ----------

  const COMPACTION_THRESHOLD := 4096

  class StreamDecoder {
    const limits: Limits
    var buffer: Bytes
    var cursor: Size

    ghost var session: Session
    // Cost accounting over the whole life of the decoder, resets included.
    ghost var retired: nat         // bytes handed out as messages and since dropped from the buffer
    ghost var movedLazily: nat     // bytes moved by threshold compaction
    ghost var forcedMoves: nat     // compactions forced by a push that needed the room
    ghost var movedByForce: nat    // bytes those moved

    // All bytes ever handed out as messages.
    ghost function Consumed(): (n: nat)
      reads this
    {
      retired + cursor
    }

    // All bytes ever moved to the front of the buffer.
    ghost function Moved(): (n: nat)
      reads this
    {
      movedLazily + movedByForce
    }

    ghost predicate Core()
      reads this
    {
      && cursor <= |buffer|
      && (cursor == 0 || cursor >= WIRE_HEADER_SIZE)
      && |buffer| <= (if limits.Valid() then limits.maxBufferedBytes else 0)
      && session.unread == buffer[cursor..]
      && Conserved(limits, session)
      && CostBounded()
    }

    ghost predicate CostBounded()
      reads this
    {
      && 4096 * movedLazily <= 4097 * retired
      && 32 * forcedMoves <= retired
      && movedByForce <= forcedMoves * limits.maxBufferedBytes
    }

    // The dead prefix is below the threshold or smaller than what is still live.
    ghost predicate Compacted()
      reads this
    {
      cursor == 0 || (cursor < |buffer| && (cursor < COMPACTION_THRESHOLD || cursor < |buffer| - cursor))
    }

    ghost predicate Valid()
      reads this
    {
      Core() && Compacted()
    }

    constructor (limits: Limits)
      ensures Valid() && this.limits == limits && session == FRESH
      ensures Consumed() == movedLazily == movedByForce == 0
    {
      this.limits := limits;
      buffer, cursor := [], 0;
      session := FRESH;
      retired, movedLazily, forcedMoves, movedByForce := 0, 0, 0, 0;
    }

    function BufferedSize(): (n: nat)
      requires Valid()
      reads this
      ensures n == |session.unread|
    {
      |buffer| - cursor
    }

    // Drops the consumed prefix.
    method CompactConsumed()
      modifies `buffer, `cursor, `retired
      requires cursor <= |buffer|
      ensures buffer == old(buffer[cursor..]) && cursor == 0 && retired == old(retired) + old(cursor)
    {
      retired := retired + cursor;
      buffer := buffer[cursor..];
      cursor := 0;
    }

    method Compact()
      modifies `buffer, `cursor, `retired, `movedLazily
      requires Core()
      ensures Valid()
      ensures Consumed() == old(Consumed())
      ensures cursor == old(cursor) || cursor == 0
      ensures movedLazily == old(movedLazily) + if cursor == old(cursor) then 0 else |session.unread|
    {
      if cursor == 0 {
        return;
      }
      if cursor == |buffer| {
        retired := retired + cursor;
        buffer, cursor := [], 0;
        return;
      }
      if cursor >= COMPACTION_THRESHOLD && cursor >= |buffer| / 2 {
        CompactConsumed();
        movedLazily := movedLazily + |buffer|;
      }
    }

    // The forced compaction of a push.
    method MakeRoom()
      modifies `buffer, `cursor, `retired, `forcedMoves, `movedByForce
      requires Valid() && cursor != 0
      ensures Valid() && cursor == 0
      ensures Consumed() == old(Consumed())
      ensures movedByForce == old(movedByForce) + |session.unread| && forcedMoves == old(forcedMoves) + 1
    {
      CompactConsumed();
      assert (forcedMoves + 1) * limits.maxBufferedBytes
          == forcedMoves * limits.maxBufferedBytes + limits.maxBufferedBytes;
      forcedMoves := forcedMoves + 1;
      movedByForce := movedByForce + |buffer|;
    }

    method Push(bytes: Bytes) returns (r: Result<()>)
      modifies this
      requires Valid()
      ensures Valid()
      ensures session == Step(limits, old(session), Op.Push(bytes)).0
      ensures Step(limits, old(session), Op.Push(bytes)).1 == if r.Ok? then Accepted else Rejected(r.error)
      ensures r == if !limits.Valid() then Err(InvalidArgument)
                   else if |old(session).unread| + |bytes| > limits.maxBufferedBytes then Err(LimitExceeded)
                   else Ok(())
      ensures session.unread == old(session).unread + if r.Ok? then bytes else []
      ensures Consumed() == old(Consumed())
      ensures Moved() == old(Moved()) + if cursor == old(cursor) then 0 else |old(session).unread|
    {
      hide Probe, Conserved;
      if !limits.Valid() {
        return Err(InvalidArgument);
      }
      Compact();
      if && cursor != 0
         && (|buffer| > limits.maxBufferedBytes
             || |bytes| > Minus(limits.maxBufferedBytes, Min(limits.maxBufferedBytes, |buffer|)))
      {
        MakeRoom();
      }
      if |buffer| > limits.maxBufferedBytes || |bytes| > Minus(limits.maxBufferedBytes, |buffer|) {
        return Err(LimitExceeded);
      }
      StepConserves(limits, session, Op.Push(bytes));
      assert (buffer + bytes)[cursor..] == buffer[cursor..] + bytes;
      buffer := buffer + bytes;
      session := Session(session.unread + bytes, session.accepted + bytes, session.emitted);
      return Ok(());
    }

    method Next() returns (r: Result<Option<Message>>)
      modifies this
      requires Valid()
      ensures Valid()
      ensures session == Step(limits, old(session), Op.Next).0
      ensures Step(limits, old(session), Op.Next).1
           == (if r.Err? then Failed(r.error) else if r.value.None? then NoMessage else Emitted(r.value.value))
      ensures Consumed() == old(Consumed()) + |old(session).unread| - |session.unread|
      ensures r.Err? || r.value.None? ==> buffer == old(buffer) && cursor == old(cursor) && Moved() == old(Moved())
      ensures r.Ok? && r.value.Some? ==> Moved() == old(Moved()) + if cursor == 0 then |session.unread| else 0
      ensures movedByForce == old(movedByForce) && forcedMoves == old(forcedMoves)
    {
      hide Probe, MessageAt, Conserved, CostBounded;
      if BufferedSize() == 0 {
        return Ok(None);
      }
      var available := buffer[cursor..];
      var inspected := Inspect(limits, available);
      if inspected.Err? {
        return Err(inspected.error);
      }
      if inspected.value.state == Incomplete {
        return Ok(None);
      }
      var decoded := DecodePrefix(limits, available);
      if decoded.Err? {
        assert false;
      }
      Consume(decoded.value.consumed);
      Compact();
      return Ok(Some(decoded.value.message));
    }

    // Moves the cursor past a decoded frame.
    method Consume(size: Size)
      modifies `cursor, `session
      requires Valid() && IsReady(limits, session.unread) && size == Probe(limits, session.unread).value.frameSize
      ensures Core()
      ensures session == Step(limits, old(session), Op.Next).0
      ensures Consumed() == old(Consumed()) + size && cursor == old(cursor) + size > 0
      ensures |session.unread| == |old(session).unread| - size
    {
      hide Probe, Step, Conserved;
      NextDropsFrame(limits, session, size);
      StepConserves(limits, session, Op.Next);
      session := Step(limits, session, Op.Next).0;
      assert buffer[cursor..][size..] == buffer[cursor + size..];
      cursor := Plus(cursor, size);
    }

    method Reset()
      modifies this
      requires Valid()
      ensures Valid()
      ensures session == Step(limits, old(session), Op.Reset).0
      ensures buffer == [] && cursor == 0 && Consumed() == old(Consumed()) && Moved() == old(Moved())
    {
      retired := retired + cursor;
      buffer, cursor := [], 0;
      session := FRESH;
    }
  }
}
