/** What holds over every run of the incremental decoder. */
module StreamTheorems {
  import opened Words
  import opened Types
  import opened Frame
  import opened FrameTheorems
  import opened Stream

  // ---------- Runs and what can be observed of them ----------

  function Run(limits: Limits, s: Session, ops: seq<Op>): (r: Session)
    decreases |ops|
  {
    if ops == [] then s else Run(limits, Step(limits, s, ops[0]).0, ops[1..])
  }

  function Trace(limits: Limits, s: Session, ops: seq<Op>): (r: seq<Outcome>)
    ensures |r| == |ops|
    decreases |ops|
  {
    if ops == [] then []
    else [Step(limits, s, ops[0]).1] + Trace(limits, Step(limits, s, ops[0]).0, ops[1..])
  }

  // The bytes accepted since the last reset, read off the calls and their results.
  function Delivered(ops: seq<Op>, outcomes: seq<Outcome>, before: Bytes): (r: Bytes)
    requires |ops| == |outcomes|
  {
    if ops == [] then before
    else
      Delivered(ops[1..], outcomes[1..],
                if ops[0].Reset? then []
                else if ops[0].Push? && outcomes[0].Accepted? then before + ops[0].chunk
                else before)
  }

  // The messages emitted since the last reset, read off the results.
  function Received(outcomes: seq<Outcome>, before: seq<Message>): (r: seq<Message>) {
    if outcomes == [] then before
    else
      Received(outcomes[1..],
               match outcomes[0]
               case Cleared => []
               case Emitted(m) => before + [m]
               case _ => before)
  }

  lemma {:induction false} TraceTells(limits: Limits, s: Session, ops: seq<Op>)
    ensures Run(limits, s, ops).accepted == Delivered(ops, Trace(limits, s, ops), s.accepted)
    ensures Run(limits, s, ops).emitted == Received(Trace(limits, s, ops), s.emitted)
    decreases |ops|
  {
    if ops != [] {
      var next := Step(limits, s, ops[0]);
      TraceTells(limits, next.0, ops[1..]);
      assert Trace(limits, s, ops)[1..] == Trace(limits, next.0, ops[1..]);
    }
  }

  /** The class run on a script behaves as the abstract machine run on it. */
  method Drive(d: StreamDecoder, ops: seq<Op>) returns (outcomes: seq<Outcome>)
    modifies d
    requires d.Valid()
    ensures d.Valid()
    ensures d.session == Run(d.limits, old(d.session), ops)
    ensures outcomes == Trace(d.limits, old(d.session), ops)
  {
    outcomes := [];
    for i := 0 to |ops|
      invariant d.Valid()
      invariant Run(d.limits, old(d.session), ops) == Run(d.limits, d.session, ops[i..])
      invariant Trace(d.limits, old(d.session), ops) == outcomes + Trace(d.limits, d.session, ops[i..])
    {
      var outcome := Apply(d, ops[i]);
      assert ops[i..][1..] == ops[i + 1..];
      outcomes := outcomes + [outcome];
    }
  }

  method Apply(d: StreamDecoder, op: Op) returns (outcome: Outcome)
    modifies d
    requires d.Valid()
    ensures d.Valid()
    ensures (d.session, outcome) == Step(d.limits, old(d.session), op)
  {
    match op {
      case Push(chunk) =>
        var r := d.Push(chunk);
        outcome := if r.Ok? then Accepted else Rejected(r.error);
      case Next =>
        var r := d.Next();
        outcome := if r.Err? then Failed(r.error) else if r.value.None? then NoMessage else Emitted(r.value.value);
      case Reset =>
        d.Reset();
        outcome := Cleared;
    }
  }

  /** Byte conservation in every reachable state. */
  lemma {:induction false} RunConserves(limits: Limits, s: Session, ops: seq<Op>)
    requires Conserved(limits, s)
    ensures Conserved(limits, Run(limits, s, ops))
    decreases |ops|
  {
    if ops != [] {
      StepConserves(limits, s, ops[0]);
      RunConserves(limits, Step(limits, s, ops[0]).0, ops[1..]);
    }
  }

  // ---------- The reference parser ----------

  function Prepend(messages: seq<Message>, p: Parsed): (r: Parsed) {
    Parsed(messages + p.messages, p.status, p.rest)
  }

  lemma PrependTwice(a: seq<Message>, b: seq<Message>, p: Parsed)
    ensures Prepend(a, Prepend(b, p)) == Prepend(a + b, p)
    ensures Prepend([], p) == p
  {
    assert a + (b + p.messages) == (a + b) + p.messages;
  }

  lemma ParseOneFrame(limits: Limits, m: Message, rest: Bytes)
    requires Encodable(limits, m)
    ensures Parse(limits, Wire(m) + rest) == Prepend([m], Parse(limits, rest))
  {
    WireIsReady(limits, m, rest);
    WireLength(m);
    assert (Wire(m) + rest)[|Wire(m)|..] == rest;
  }

  lemma WireAllSplit(messages: seq<Message>, rest: Bytes)
    ensures messages == [] ==> WireAll(messages) + rest == rest
    ensures messages != [] ==> WireAll(messages) + rest == Wire(messages[0]) + (WireAll(messages[1..]) + rest)
  {
    if messages != [] {
      Reassociate(Wire(messages[0]), WireAll(messages[1..]), rest);
    }
  }

  /** Concatenated frames parse back to their messages; what follows is parsed on its own. */
  lemma {:induction false} ParseOfWires(limits: Limits, messages: seq<Message>, rest: Bytes)
    requires AllEncodable(limits, messages)
    ensures Parse(limits, WireAll(messages) + rest) == Prepend(messages, Parse(limits, rest))
    decreases |messages|
  {
    WireAllSplit(messages, rest);
    if messages == [] {
      PrependTwice([], [], Parse(limits, rest));
    } else {
      ParseOfWires(limits, messages[1..], rest);
      ParseOneFrame(limits, messages[0], WireAll(messages[1..]) + rest);
      PrependTwice([messages[0]], messages[1..], Parse(limits, rest));
      assert messages == [messages[0]] + messages[1..];
    }
  }

  /** A byte string is the concatenation of at most one list of frames. */
  lemma UniqueParse(limits: Limits, a: seq<Message>, b: seq<Message>)
    requires AllEncodable(limits, a) && AllEncodable(limits, b) && WireAll(a) == WireAll(b)
    ensures a == b
  {
    ParseOfWires(limits, a, []);
    ParseOfWires(limits, b, []);
    assert a + [] == a && b + [] == b;
  }

  // What a rest that does not start with a frame is reported as.
  ghost predicate Describes(status: Status, limits: Limits, rest: Bytes) {
    match status
    case Drained => rest == []
    case Partial => rest != [] && IsIncomplete(limits, rest)
    case Broken(e) => rest != [] && Deserves(limits, rest, e)
  }

  /**
    The parser splits its input into frames and a rest that does not start with one, and its status
    says of the rest that there is none, that it is incomplete, or which error its bytes deserve.
    */
  lemma {:induction false} ParseSplits(limits: Limits, s: Bytes)
    ensures var p := Parse(limits, s);
            && AllEncodable(limits, p.messages)
            && s == WireAll(p.messages) + p.rest
            && !IsReady(limits, p.rest)
            && Describes(p.status, limits, p.rest)
    decreases |s|
  {
    hide Wire, Probe, MessageAt, Deserves, Encodable;
    ReadyIsWhole(limits, []);
    if s != [] && Probe(limits, s).Err? {
      ErrorsExactly(limits, s, Probe(limits, s).error);
    } else if s != [] && IsReady(limits, s) {
      FirstFrame(limits, s);
      var n, m := Probe(limits, s).value.frameSize, MessageAt(limits, s);
      var tail := Parse(limits, s[n..]);
      ParseSplits(limits, s[n..]);
      assert ([m] + tail.messages)[1..] == tail.messages;
      Reassociate(Wire(m), WireAll(tail.messages), tail.rest);
    }
  }

  // ---------- Chunking independence ----------

  // What a further call of next would report at the end of a run.
  function NextOutcome(limits: Limits, s: Session): (r: Outcome) {
    Step(limits, s, Next).1
  }

  function StatusOutcome(status: Status): (r: Outcome) {
    if status.Broken? then Failed(status.error) else NoMessage
  }

  /**
    What next reports, on the bytes: the message whose frame starts the unread bytes, the error they
    deserve, or nothing when there are none or they are incomplete.
    */
  lemma NextExactly(limits: Limits, s: Session, m: Message, e: ErrorCode)
    ensures NextOutcome(limits, s) == Emitted(m) <==> Encodable(limits, m) && Wire(m) <= s.unread
    ensures NextOutcome(limits, s) == Failed(e) <==> s.unread != [] && Deserves(limits, s.unread, e)
    ensures NextOutcome(limits, s) == NoMessage <==> s.unread == [] || IsIncomplete(limits, s.unread)
  {
    hide Wire, Probe, MessageAt, Deserves, Encodable;
    ErrorsExactly(limits, s.unread, e);
    WireLength(m);
    if NextOutcome(limits, s) == Emitted(m) {
      FirstFrame(limits, s.unread);
    }
    if Encodable(limits, m) && Wire(m) <= s.unread {
      var tail := s.unread[|Wire(m)|..];
      assert Wire(m) + tail == s.unread;
      WireIsReady(limits, m, tail);
    }
  }

  lemma SettledParse(limits: Limits, s: Session)
    requires !NextOutcome(limits, s).Emitted?
    ensures Parse(limits, s.unread).messages == [] && Parse(limits, s.unread).rest == s.unread
    ensures NextOutcome(limits, s) == StatusOutcome(Parse(limits, s.unread).status)
  {
  }

  /**
    A drained run has emitted exactly the messages of the reference parser on the bytes it accepted,
    and its status is the parser's, however those bytes were cut into pushes and however calls of
    next were interleaved.
    */
  lemma RunMatchesParse(limits: Limits, ops: seq<Op>)
    requires !NextOutcome(limits, Run(limits, FRESH, ops)).Emitted?
    ensures var trace := Trace(limits, FRESH, ops);
            var parsed := Parse(limits, Delivered(ops, trace, []));
            && Received(trace, []) == parsed.messages
            && NextOutcome(limits, Run(limits, FRESH, ops)) == StatusOutcome(parsed.status)
            && Run(limits, FRESH, ops).unread == parsed.rest
  {
    var s := Run(limits, FRESH, ops);
    TraceTells(limits, FRESH, ops);
    RunConserves(limits, FRESH, ops);
    ParseOfWires(limits, s.emitted, s.unread);
    SettledParse(limits, s);
    assert s.emitted + [] == s.emitted;
  }

  /** Two drained runs that accepted the same bytes are indistinguishable. */
  lemma ChunkingIndependence(limits: Limits, a: seq<Op>, b: seq<Op>)
    requires !NextOutcome(limits, Run(limits, FRESH, a)).Emitted?
    requires !NextOutcome(limits, Run(limits, FRESH, b)).Emitted?
    requires Delivered(a, Trace(limits, FRESH, a), []) == Delivered(b, Trace(limits, FRESH, b), [])
    ensures Received(Trace(limits, FRESH, a), []) == Received(Trace(limits, FRESH, b), [])
    ensures NextOutcome(limits, Run(limits, FRESH, a)) == NextOutcome(limits, Run(limits, FRESH, b))
    ensures Run(limits, FRESH, a) == Run(limits, FRESH, b)
  {
    RunMatchesParse(limits, a);
    RunMatchesParse(limits, b);
    TraceTells(limits, FRESH, a);
    TraceTells(limits, FRESH, b);
  }

  lemma NextFollowsParse(limits: Limits, s: Session)
    requires Parse(limits, s.unread).messages != []
    ensures var p := Parse(limits, s.unread);
            var after := Step(limits, s, Next).0;
            && after.accepted == s.accepted
            && after.emitted == s.emitted + [p.messages[0]]
            && Parse(limits, after.unread) == Parsed(p.messages[1..], p.status, p.rest)
  {
  }

  lemma NothingToParse(limits: Limits, s: Session)
    requires Parse(limits, s.unread).messages == []
    ensures Parse(limits, s.unread).rest == s.unread && !NextOutcome(limits, s).Emitted?
  {
  }

  lemma RunFirst(limits: Limits, s: Session, op: Op, ops: seq<Op>)
    ensures Run(limits, s, [op] + ops) == Run(limits, Step(limits, s, op).0, ops)
  {
    assert ([op] + ops)[1..] == ops;
  }

  function Nexts(n: nat): (r: seq<Op>) {
    if n == 0 then [] else [Next] + Nexts(n - 1)
  }

  lemma {:induction false} NextsFollowParse(limits: Limits, s: Session, p: Parsed)
    requires p == Parse(limits, s.unread)
    ensures Run(limits, s, Nexts(|p.messages|)) == Session(p.rest, s.accepted, s.emitted + p.messages)
    decreases |p.messages|
  {
    hide Probe, Parse, Step;
    if p.messages == [] {
      NothingToParse(limits, s);
      assert s.emitted + p.messages == s.emitted;
    } else {
      var after := Step(limits, s, Next).0;
      NextFollowsParse(limits, s);
      NextsFollowParse(limits, after, p.(messages := p.messages[1..]));
      RunFirst(limits, s, Next, Nexts(|p.messages| - 1));
      assert after.emitted + p.messages[1..] == s.emitted + p.messages;
    }
  }

  /** Calling next as often as the parser finds messages drains any session. */
  lemma DrainEmitsParse(limits: Limits, s: Session)
    ensures var p := Parse(limits, s.unread);
            var drained := Run(limits, s, Nexts(|p.messages|));
            && drained == Session(p.rest, s.accepted, s.emitted + p.messages)
            && !NextOutcome(limits, drained).Emitted?
  {
    NextsFollowParse(limits, s, Parse(limits, s.unread));
    ParseSplits(limits, s.unread);
  }

  // ---------- Failing closed ----------

  lemma FailureSurvivesStep(limits: Limits, s: Session, op: Op)
    requires NextOutcome(limits, s).Failed? && !op.Reset?
    ensures var s' := Step(limits, s, op).0;
            && NextOutcome(limits, s') == NextOutcome(limits, s)
            && s.unread <= s'.unread && s'.emitted == s.emitted
  {
    if op.Push? {
      ProbeStable(limits, s.unread, op.chunk);
    }
  }

  /** After an error, every later next reports that error and no byte is discarded, until reset. */
  lemma {:induction false} FailsClosed(limits: Limits, s: Session, ops: seq<Op>)
    requires NextOutcome(limits, s).Failed?
    requires forall op :: op in ops ==> !op.Reset?
    ensures forall i :: 0 <= i < |ops| && ops[i].Next? ==> Trace(limits, s, ops)[i] == NextOutcome(limits, s)
    ensures s.unread <= Run(limits, s, ops).unread
    ensures Run(limits, s, ops).emitted == s.emitted
    decreases |ops|
  {
    if ops != [] {
      FailureSurvivesStep(limits, s, ops[0]);
      FailsClosed(limits, Step(limits, s, ops[0]).0, ops[1..]);
    }
  }

  // ---------- Never wedged ----------

  function Required(limits: Limits, s: Session): (r: nat)
    requires Probe(limits, s.unread).Ok?
  {
    Probe(limits, s.unread).value.requiredSize
  }

  /** When next has no message, the bytes it is still waiting for are always admitted. */
  lemma MissingBytesAdmitted(limits: Limits, s: Session, more: Bytes)
    requires limits.Valid() && NextOutcome(limits, s) == NoMessage
    ensures Probe(limits, s.unread).Ok?
    ensures |s.unread| < Required(limits, s)
    ensures |s.unread + more| <= Required(limits, s) ==> Step(limits, s, Push(more)).1 == Accepted
    ensures |s.unread + more| < Required(limits, s) ==> !NextOutcome(limits, Step(limits, s, Push(more)).0).Emitted?
  {
    RequiredIsNecessary(limits, s.unread, more);
  }

  // The decoder has reached a message or an error.
  ghost predicate Settled(limits: Limits, s: Session) {
    NextOutcome(limits, s).Emitted? || NextOutcome(limits, s).Failed?
  }

  /** Feeding exactly what is asked for, twice, reaches a message or an error. */
  lemma TwoFeedsSettle(limits: Limits, s: Session, first: Bytes, second: Bytes)
    requires limits.Valid() && NextOutcome(limits, s) == NoMessage
    requires Probe(limits, s.unread).Ok? && |s.unread + first| == Required(limits, s)
    ensures var fed := Step(limits, s, Push(first));
            && fed.1 == Accepted
            && (Settled(limits, fed.0)
                || (&& NextOutcome(limits, fed.0) == NoMessage
                    && Probe(limits, fed.0.unread).Ok?
                    && (|fed.0.unread + second| == Required(limits, fed.0)
                        ==> var again := Step(limits, fed.0, Push(second));
                            again.1 == Accepted && Settled(limits, again.0))))
  {
    MissingBytesAdmitted(limits, s, first);
    var fed := Step(limits, s, Push(first)).0;
    TwoRounds(limits, s.unread, first, second);
    if NextOutcome(limits, fed) == NoMessage {
      MissingBytesAdmitted(limits, fed, second);
    }
  }

  // ---------- The cost of compaction ----------

  /**
    At any point of a decoder's life the dead prefix is short, the buffer is within its limit, and
    the bytes moved are bounded by the bytes consumed.
    */
  lemma CompactionIsCheap(d: StreamDecoder)
    requires d.Valid()
    ensures d.cursor < 4096 || d.cursor < |d.session.unread|
    ensures d.limits.Valid() ==> |d.buffer| <= d.limits.maxBufferedBytes
    ensures 4096 * d.movedLazily <= 4097 * d.Consumed()
    ensures 32 * d.movedByForce <= d.limits.maxBufferedBytes * d.Consumed()
  {
    ForcedMovesArePaid(d.movedByForce, d.forcedMoves, d.limits.maxBufferedBytes, d.retired, d.Consumed());
  }

  // Each forced compaction moves at most a full buffer, and at least one header was consumed before it.
  lemma ForcedMovesArePaid(moved: nat, moves: nat, capacity: nat, retired: nat, consumed: nat)
    requires moved <= moves * capacity && 32 * moves <= retired <= consumed
    ensures 32 * moved <= capacity * consumed
  {
    assert 32 * (moves * capacity) == (32 * moves) * capacity <= consumed * capacity;
  }
}
