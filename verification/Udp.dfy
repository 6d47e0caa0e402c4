/** UDP sockets over the socket layer: binding, sending and the one-entry destination cache. */
module Udp {
  import opened Options
  import opened Words
  import opened Sockets
  import opened Ownership

  const MAXIMUM_PAYLOAD_SIZE := 65507

  datatype UdpImpl = UdpImpl(
    socket: NativeSocket, options: IoOptions, family: int,
    cachedEndpoint: Option<Endpoint>, cachedAddress: Option<Address>)

  // The family field describes the open socket, and the cache repeats an answer of name resolution.
  ghost predicate Sound(impl: UdpImpl, s: Snapshot) {
    && HandlesOf(impl.socket) <= s.open
    && (impl.socket.Native? ==>
          impl.socket.handle in s.sockets && s.sockets[impl.socket.handle].family == impl.family)
    && (impl.cachedEndpoint.Some? && impl.cachedAddress.Some? ==>
          Answer(Destination(impl.cachedEndpoint.value), impl.cachedAddress.value) in s.answers)
  }

  /** Operations of other objects keep a socket sound and the log safe. */
  lemma SoundForever(impl: UdpImpl, s: Snapshot, held: set<Handle>, s': Snapshot, held': set<Handle>)
    requires Sound(impl, s) && HandlesOf(impl.socket) !! held && Conserves(s, held, s', held')
    ensures Sound(impl, s')
  {
    if impl.socket.Native? {
      assert impl.socket.handle in s.open - held;
    }
  }

  // What a call handed over: only this payload, to answers for this endpoint, none after one was taken.
  ghost predicate HandedOver(
    before: seq<Datagram>, after: seq<Datagram>, answers: set<Answer>, endpoint: Endpoint, payload: Bytes, done: bool)
  {
    && before <= after
    && (forall i :: |before| <= i < |after| ==>
          && after[i].endpoint == endpoint
          && after[i].payload == payload
          && Safe(after[i], answers)
          && (after[i].taken <==> done && i == |after| - 1))
    && (done ==> |before| < |after|)
  }

  lemma NothingHandedOver(s: seq<Datagram>, answers: set<Answer>, endpoint: Endpoint, payload: Bytes)
    ensures HandedOver(s, s, answers, endpoint, payload, false)
  {
  }

  lemma HandedOverOn(
    a: seq<Datagram>, b: seq<Datagram>, answers: set<Answer>, c: seq<Datagram>, answers': set<Answer>,
    endpoint: Endpoint, payload: Bytes, done: bool)
    requires HandedOver(a, b, answers, endpoint, payload, false) && answers <= answers'
    requires HandedOver(b, c, answers', endpoint, payload, done)
    ensures HandedOver(a, c, answers', endpoint, payload, done)
  {
    forall i | |a| <= i < |b|
      ensures c[i] == b[i] && !c[i].taken
    {
    }
  }

  lemma TakenIsLast(
    before: seq<Datagram>, after: seq<Datagram>, answers: set<Answer>, endpoint: Endpoint, payload: Bytes)
    requires HandedOver(before, after, answers, endpoint, payload, true)
    ensures before < after
  {
  }

  lemma AnswersStay(s: Snapshot, held: set<Handle>, s': Snapshot, held': set<Handle>)
    requires Conserves(s, held, s', held')
    ensures s.answers <= s'.answers
  {
  }

  /**
    The mismatch is reached: from a process without sockets, one socket is created, sends a datagram
    to an endpoint that resolves to an address of family 1, is closed, and binds to one of family 2.
    */
  lemma MismatchHappens(endpoint: Endpoint, local: Endpoint, options: IoOptions)
    returns (impl: UdpImpl, s: Snapshot, worlds: seq<World>, actions: seq<Action>)
    requires endpoint.Valid() && local.Valid() && options.Valid()
    ensures Leads(EMPTY, worlds, actions, World(s, map[0 := HandlesOf(impl.socket)]))
    ensures actions == [Create(0), Operate(0), Operate(0), Operate(0)]
    ensures s.Balanced() && AllSafe(s) && Sound(impl, s) && impl.options == options
    ensures Mismatched(impl, endpoint)
    ensures |s.datagrams| == 1 && s.datagrams[0].taken && s.datagrams[0].endpoint == endpoint
    ensures s.datagrams[0].address == impl.cachedAddress.value
    ensures exists a :: Answer(Local(local), a) in s.answers
                        && s.sockets[impl.socket.handle] == Record(a.family, [Configure(options), BindTo(a)], [])
  {
    var remote, own := Address([], 1), Address([], 2);
    impl := UdpImpl(Native(1), options, 2, Some(endpoint), Some(remote));
    var first, second := Record(1, [Configure(options)], []), Record(2, [Configure(options), BindTo(own)], []);
    var asked := {Answer(Destination(endpoint), remote)};
    var datagram := Datagram(endpoint, remote, 1, [], true);
    var sent := Snapshot({0}, map[0 := first], multiset{0}, multiset{}, asked, [datagram]);
    var closed := sent.(open := {}, released := multiset{0});
    s := Snapshot(
      {1}, map[0 := first, 1 := second], multiset{0, 1}, multiset{0}, asked + {Answer(Local(local), own)}, [datagram]);
    assert Answer(Local(local), own) in s.answers;
    worlds := [EMPTY, World(EMPTY.layer, map[0 := {}]), World(sent, map[0 := {0}]), World(closed, map[0 := {}]),
               World(s, map[0 := {1}])];
    actions := [Create(0), Operate(0), Operate(0), Operate(0)];
    assert Next(worlds[0], actions[0], worlds[1]);
    assert Next(worlds[1], actions[1], worlds[2]);
    assert Next(worlds[2], actions[2], worlds[3]);
    assert Next(worlds[3], actions[3], worlds[4]);
  }

  // The destination cache is as it was.
  predicate SameCache(impl: UdpImpl, impl': UdpImpl) {
    impl' == impl.(socket := impl'.socket, family := impl'.family)
  }

  // ---------- Why sends succeed or fail ----------

  function AsTries(sends: seq<Sending>): (r: seq<Try>)
    ensures |r| == |sends|
  {
    seq(|sends|, i requires 0 <= i < |sends| => Try(sends[i].address, FailureOf(ResultOf(sends[i].cause))))
  }

  function RefusalsOf(sends: seq<Sending>): (r: seq<TransportError>) {
    if sends == [] then []
    else
      var cause := sends[|sends| - 1].cause;
      RefusalsOf(sends[..|sends| - 1]) + if cause.NoSocket? then [cause.error] else []
  }

  function RepliesOf(sends: seq<Sending>): (r: seq<Io<nat>>) {
    if sends == [] then []
    else
      var cause := sends[|sends| - 1].cause;
      RepliesOf(sends[..|sends| - 1]) + if cause.Replied? then [cause.reply] else []
  }

  // The system's own answers are exactly those that the sends report.
  ghost predicate Answered(
    sends: seq<Sending>, refusals: seq<TransportError>, refusals': seq<TransportError>, replies: seq<Io<nat>>,
    replies': seq<Io<nat>>)
  {
    refusals' == refusals + RefusalsOf(sends) && replies' == replies + RepliesOf(sends)
  }

  // Given the family of the socket open before and after: a socket was only asked for while none was
  // open, and each address was served exactly if it had the family of the socket.
  ghost predicate Explained(sends: seq<Sending>, before: Option<int>, after: Option<int>) {
    && (before.Some? ==> after == before)
    && forall i :: 0 <= i < |sends| ==>
         match sends[i].cause
         case WrongFamily => after.Some? && after.value != sends[i].address.family
         case NoSocket(_) => before.None? && forall j :: 0 <= j < i ==> sends[j].cause.NoSocket?
         case Replied(_) => after == Some(sends[i].address.family)
  }

  lemma NoSends(family: Option<int>, refusals: seq<TransportError>, replies: seq<Io<nat>>)
    ensures Explained([], family, family) && Answered([], refusals, refusals, replies, replies)
    ensures AsTries([]) == []
  {
  }

  lemma ExplainedOn(sends: seq<Sending>, last: Sending, a: Option<int>, b: Option<int>, c: Option<int>)
    requires Explained(sends, a, b) && Explained([last], b, c)
    ensures Explained(sends + [last], a, c)
  {
    var all := sends + [last];
    assert [last][0] == last;
    forall i | 0 <= i < |all|
      ensures match all[i].cause
              case WrongFamily => c.Some? && c.value != all[i].address.family
              case NoSocket(_) => a.None? && forall j :: 0 <= j < i ==> all[j].cause.NoSocket?
              case Replied(_) => c == Some(all[i].address.family)
    {
      if i < |sends| {
        assert all[i] == sends[i];
      }
    }
  }

  lemma AnsweredOn(
    sends: seq<Sending>, last: Sending, refusals: seq<TransportError>, refusals': seq<TransportError>,
    refusals'': seq<TransportError>, replies: seq<Io<nat>>, replies': seq<Io<nat>>, replies'': seq<Io<nat>>)
    requires Answered(sends, refusals, refusals', replies, replies')
    requires Answered([last], refusals', refusals'', replies', replies'')
    ensures Answered(sends + [last], refusals, refusals'', replies, replies'')
  {
    AnswersSnoc(sends, last);
    AnswersSnoc([], last);
    assert [] + [last] == [last];
    hide RefusalsOf, RepliesOf;
    Reassociate(refusals, RefusalsOf(sends), if last.cause.NoSocket? then [last.cause.error] else []);
    Reassociate(replies, RepliesOf(sends), if last.cause.Replied? then [last.cause.reply] else []);
  }

  lemma AnswersSnoc(sends: seq<Sending>, last: Sending)
    ensures RefusalsOf(sends + [last]) == RefusalsOf(sends) + if last.cause.NoSocket? then [last.cause.error] else []
    ensures RepliesOf(sends + [last]) == RepliesOf(sends) + if last.cause.Replied? then [last.cause.reply] else []
  {
    assert (sends + [last])[..|sends|] == sends;
  }

  lemma OneSend(s: Sending, before: Option<int>, after: Option<int>)
    requires before.Some? ==> after == before
    requires match s.cause
             case WrongFamily => after.Some? && after.value != s.address.family
             case NoSocket(_) => before.None?
             case Replied(_) => after == Some(s.address.family)
    ensures Explained([s], before, after)
  {
  }

  lemma OneAnswer(
    s: Sending, refusals: seq<TransportError>, refusals': seq<TransportError>, replies: seq<Io<nat>>,
    replies': seq<Io<nat>>)
    requires refusals' == refusals + if s.cause.NoSocket? then [s.cause.error] else []
    requires replies' == replies + if s.cause.Replied? then [s.cause.reply] else []
    ensures Answered([s], refusals, refusals', replies, replies')
  {
    assert [s][..0] == [];
  }

  lemma AsTriesAppend(a: seq<Sending>, b: seq<Sending>)
    ensures AsTries(a + b) == AsTries(a) + AsTries(b)
  {
  }

  lemma AsTriesOne(s: Sending)
    ensures AsTries([s]) == [Try(s.address, FailureOf(ResultOf(s.cause)))]
  {
  }

  // The query of a socket for its own address.
  function Local(endpoint: Endpoint): (q: Query) {
    Query(endpoint, DatagramSocket, true)
  }

  // A cached destination that the open socket cannot serve.
  ghost predicate Mismatched(impl: UdpImpl, endpoint: Endpoint) {
    && impl.socket.Native?
    && impl.cachedEndpoint == Some(endpoint)
    && impl.cachedAddress.Some?
    && impl.family != impl.cachedAddress.value.family
  }

  class UdpSocket {
    const os: SocketLayer
    var implementation: Option<UdpImpl>

    ghost function Held(): (r: set<Handle>)
      reads this
    {
      if implementation.Some? then HandlesOf(implementation.value.socket) else {}
    }

    ghost predicate Valid()
      reads this, os
    {
      os.Valid() && AllSafe(os.Snap()) && (implementation.Some? ==> Sound(implementation.value, os.Snap()))
    }

    predicate Open()
      reads this
    {
      implementation.Some? && implementation.value.socket.Native?
    }

    constructor (os: SocketLayer, options: IoOptions)
      requires os.Valid() && AllSafe(os.Snap())
      ensures Valid() && this.os == os && Held() == {}
      ensures implementation == Some(UdpImpl(Invalid, options, 0, None, None))
    {
      this.os := os;
      implementation := Some(UdpImpl(Invalid, options, 0, None, None));
    }

    // Closing keeps the destination cache.
    method Close()
      modifies this, os`open, os`released
      requires Valid()
      ensures Valid() && Held() == {}
      ensures Conserves(old(os.Snap()), old(Held()), os.Snap(), {})
      ensures os.open == old(os.open) - old(Held())
      ensures implementation == if old(implementation).None? then None
                                else Some(old(implementation).value.(socket := Invalid, family := 0))
    {
      hide Conserves;
      ConservesNothing(os.Snap(), Held());
      if implementation.Some? {
        var socket := os.CloseSocket(implementation.value.socket);
        implementation := Some(implementation.value.(socket := socket, family := 0));
      }
    }

    method MoveFrom(other: UdpSocket)
      modifies this, other, os`open, os`released
      requires Valid() && other.Valid() && other.os == os
      requires this != other ==> Held() !! other.Held()
      ensures Valid() && other.Valid()
      ensures this == other ==> implementation == old(implementation) && os.Snap() == old(os.Snap())
      ensures this != other ==>
                && implementation == old(other.implementation)
                && other.implementation.None?
                && Conserves(old(os.Snap()), old(Held()), os.Snap(), {})
    {
      hide Conserves;
      if this != other {
        Close();
        implementation := other.implementation;
        other.implementation := None;
      }
    }

    // The socket was made for this address, then configured, then bound to it.
    ghost predicate IsBoundTo(address: Address)
      reads this, os
    {
      && Open()
      && implementation.value.socket.handle in os.sockets
      && os.sockets[implementation.value.socket.handle]
         == Record(address.family, [Configure(implementation.value.options), BindTo(address)], [])
    }

    // Bound to the address tried last, which name resolution gave for this endpoint.
    ghost predicate IsBoundFor(endpoint: Endpoint)
      reads this, os
    {
      && os.tries != []
      && var address := os.tries[|os.tries| - 1].address;
         Answer(Local(endpoint), address) in os.answers && IsBoundTo(address)
    }

    // The arguments and configuration that binding and sending demand.
    predicate Accepts(endpoint: Endpoint)
      reads this
    {
      implementation.Some? && endpoint.Valid() && implementation.value.options.Valid()
    }

    /**
      Binds to the first address that can be established; the destination cache stays. Wrong
      arguments change nothing and ask nothing; otherwise there is one name query, and the socket is
      open exactly on success.
      */
    method Bind(endpoint: Endpoint) returns (r: Io<()>)
      modifies this, os`open, os`sockets, os`acquired, os`released
      modifies os`answers, os`log, os`lookups, os`tries, os`refusals
      requires Valid()
      ensures Valid()
      ensures Conserves(old(os.Snap()), old(Held()), os.Snap(), Held())
      ensures r == Fault(InvalidArgument) <==> !old(Accepts(endpoint))
      ensures !old(Accepts(endpoint)) ==>
                && implementation == old(implementation)
                && os.Snap() == old(os.Snap())
                && os.log == old(os.log)
                && os.lookups == old(os.lookups) && os.tries == old(os.tries) && os.refusals == old(os.refusals)
      ensures old(Accepts(endpoint)) ==>
                && implementation.Some?
                && implementation.value
                   == old(implementation).value.(socket := implementation.value.socket,
                                                 family := implementation.value.family)
                && (r.Done? <==> Open())
                && os.log == old(os.log) + [Queried(Local(endpoint))]
                && Tried(old(os.lookups), os.lookups, old(os.tries), os.tries, Local(endpoint), r, BindFailed)
                && Refused(old(os.refusals), os.refusals, old(os.tries), os.tries)
      ensures r.Done? ==> IsBoundFor(endpoint)
    {
      hide Conserves, Tried, Refused;
      ConservesNothing(os.Snap(), Held());
      if implementation.None? {
        return Fault(InvalidArgument);
      }
      if !endpoint.Valid() || !implementation.value.options.Valid() {
        return Fault(InvalidArgument);
      }
      Close();
      ghost var before := os.Snap();
      var options := implementation.value.options;
      var socket, chosen := os.Reach(Local(endpoint), a => [Configure(options), BindTo(a)], BindFailed);
      ghost var held := if socket.Done? then HandlesOf(socket.value) else {};
      ConservesTransitive(old(os.Snap()), old(Held()), before, {}, os.Snap(), held);
      r := if socket.Done? then Done(()) else Fault(socket.error);
      TriedAs(old(os.lookups), os.lookups, old(os.tries), os.tries, Local(endpoint), socket, r, BindFailed);
      if socket.Fault? {
        return;
      }
      implementation := Some(implementation.value.(socket := socket.value, family := chosen.family));
      assert Answer(Local(endpoint), chosen) in os.answers && IsBoundTo(chosen);
    }

    // The family of the open socket.
    ghost function FamilyNow(): (r: Option<int>)
      reads this
    {
      if Open() then Some(implementation.value.family) else None
    }

    // Makes sure a socket of the address's family is open; an open socket of another family is an error.
    method EnsureOpen(address: Address) returns (r: Io<()>)
      modifies this, os`open, os`sockets, os`acquired, os`released, os`tries, os`refusals
      requires Valid() && implementation.Some?
      ensures Valid() && implementation.Some?
      ensures SameCache(old(implementation).value, implementation.value)
      ensures Conserves(old(os.Snap()), old(Held()), os.Snap(), Held())
      ensures r.Done? ==> Open() && implementation.value.family == address.family
      ensures r.Fault? ==> r.error != InvalidArgument && implementation == old(implementation)
      ensures old(Open()) ==>
                && implementation == old(implementation)
                && os.Snap() == old(os.Snap())
                && os.tries == old(os.tries) && os.refusals == old(os.refusals)
                && (r.Fault? <==> address.family != implementation.value.family)
                && (r.Fault? ==> r.error == SendFailed)
      ensures !old(Open()) ==>
                && os.tries == old(os.tries) + [Try(address, FailureOf(r))]
                && os.refusals == old(os.refusals) + if r.Done? then [] else [r.error]
      ensures !old(Open()) && r.Done? ==>
                os.sockets[implementation.value.socket.handle]
                == Record(address.family, [Configure(implementation.value.options)], [])
    {
      hide Conserves;
      ConservesNothing(os.Snap(), Held());
      if Open() {
        if address.family == implementation.value.family {
          return Done(());
        }
        return Fault(SendFailed);
      }
      var socket := os.Establish(address, [Configure(implementation.value.options)]);
      if socket.Fault? {
        return Fault(socket.error);
      }
      implementation := Some(implementation.value.(socket := socket.value, family := address.family));
      return Done(());
    }

    // Hands one datagram to the socket layer.
    method Transmit(endpoint: Endpoint, address: Address, payload: Bytes) returns (r: Io<nat>)
      modifies os`datagrams, os`replies
      requires Valid() && Open() && implementation.value.family == address.family
      requires Answer(Destination(endpoint), address) in os.answers
      ensures Valid()
      ensures os.datagrams == old(os.datagrams) + [Datagram(endpoint, address, address.family, payload, r.Done?)]
      ensures HandedOver(old(os.datagrams), os.datagrams, os.answers, endpoint, payload, r.Done?)
      ensures Conserves(old(os.Snap()), old(Held()), os.Snap(), Held())
      ensures os.replies == old(os.replies) + [r]
      ensures r.Done? ==> r.value <= |payload|
      ensures r.Fault? ==> r.error == SendFailed
    {
      r := os.SendDatagram(implementation.value.socket, endpoint, address, payload);
    }

    ghost predicate CacheHit(endpoint: Endpoint)
      reads this
    {
      && implementation.Some?
      && implementation.value.cachedEndpoint == Some(endpoint)
      && implementation.value.cachedAddress.Some?
    }

    /**
      Every datagram handed over by the call carries the payload, is addressed to an answer of name
      resolution for this very endpoint, and leaves over a socket of that address's family. The call
      succeeds exactly when the system took one, and then hands over no more; that destination is
      cached. A cached destination is used without a name query, even when the open socket is of
      another family and the call therefore fails.
      */
    method SendTo(endpoint: Endpoint, payload: Bytes) returns (r: Io<nat>)
      modifies this, os
      requires Valid()
      ensures Valid()
      ensures Conserves(old(os.Snap()), old(Held()), os.Snap(), Held())
      ensures HandedOver(old(os.datagrams), os.datagrams, os.answers, endpoint, payload, r.Done?)
      ensures r.Done? ==> CacheHit(endpoint)
      ensures r.Done? ==> os.datagrams[|os.datagrams| - 1].address == implementation.value.cachedAddress.value
      ensures r == Fault(InvalidArgument) <==> !old(Accepts(endpoint))
      ensures !old(Accepts(endpoint)) || |payload| > MAXIMUM_PAYLOAD_SIZE ==>
                && r.Fault? && implementation == old(implementation)
                && os.Snap() == old(os.Snap()) && os.log == old(os.log) && os.sends == old(os.sends)
      ensures old(Accepts(endpoint)) && |payload| <= MAXIMUM_PAYLOAD_SIZE ==>
                os.log == old(os.log) + if old(CacheHit(endpoint)) then [] else [Queried(Destination(endpoint))]
      ensures old(CacheHit(endpoint)) ==> os.log == old(os.log) && os.lookups == old(os.lookups)
      ensures old(Accepts(endpoint)) && |payload| <= MAXIMUM_PAYLOAD_SIZE && old(CacheHit(endpoint)) ==>
                && |os.sends| == |old(os.sends)| + 1
                && os.sends[|old(os.sends)|].address == old(implementation).value.cachedAddress.value
                && r == ResultOf(os.sends[|old(os.sends)|].cause)
      ensures old(Accepts(endpoint)) && |payload| <= MAXIMUM_PAYLOAD_SIZE && !old(CacheHit(endpoint)) ==>
                Tried(old(os.lookups), os.lookups, AsTries(old(os.sends)), AsTries(os.sends), Destination(endpoint),
                      r, SendFailed)
      ensures old(os.sends) <= os.sends
      ensures var made := os.sends[|old(os.sends)|..];
              && Explained(made, old(FamilyNow()), FamilyNow())
              && Answered(made, old(os.refusals), os.refusals, old(os.replies), os.replies)
              && (r.Done? ==> made != [] && made[|made| - 1].cause == Replied(r))
      ensures old(Accepts(endpoint)) && |payload| > MAXIMUM_PAYLOAD_SIZE ==> r == Fault(DatagramTooLarge)
      ensures implementation.Some? == old(implementation).Some?
      ensures r.Fault? && implementation.Some? ==> SameCache(old(implementation).value, implementation.value)
      ensures old(CacheHit(endpoint) && Open() && Accepts(endpoint)) && |payload| <= MAXIMUM_PAYLOAD_SIZE ==>
                && implementation == old(implementation)
                && (os.datagrams == old(os.datagrams) <==> Mismatched(implementation.value, endpoint))
                && (Mismatched(implementation.value, endpoint) ==>
                      r == Fault(SendFailed) && os.Snap() == old(os.Snap()))
    {
      hide Conserves, Tried, AllSafe, Explained, Answered, AsTries;
      ConservesNothing(os.Snap(), Held());
      NoSends(FamilyNow(), os.refusals, os.replies);
      ghost var made: seq<Sending> := [];
      assert os.sends[|os.sends|..] == made;
      if implementation.None? {
        return Fault(InvalidArgument);
      }
      if !endpoint.Valid() || !implementation.value.options.Valid() {
        return Fault(InvalidArgument);
      }
      if |payload| > MAXIMUM_PAYLOAD_SIZE {
        return Fault(DatagramTooLarge);
      }
      if implementation.value.cachedEndpoint == Some(endpoint) && implementation.value.cachedAddress.Some? {
        ghost var sending;
        r, sending := SendAt(endpoint, implementation.value.cachedAddress.value, payload);
        made := [sending];
      } else {
        r, made := SendResolved(endpoint, payload);
      }
      assert os.sends[|old(os.sends)|..] == made;
    }

    // Opens a socket for the address where none is open, and hands one datagram over if that is possible.
    method SendAt(endpoint: Endpoint, address: Address, payload: Bytes) returns (r: Io<nat>, ghost sending: Sending)
      modifies this, os
      requires Valid() && implementation.Some? && Answer(Destination(endpoint), address) in os.answers
      ensures Valid() && implementation.Some? && SameCache(old(implementation).value, implementation.value)
      ensures Conserves(old(os.Snap()), old(Held()), os.Snap(), Held())
      ensures os.log == old(os.log) && os.lookups == old(os.lookups)
      ensures os.sends == old(os.sends) + [sending] && sending.address == address && r == ResultOf(sending.cause)
      ensures Explained([sending], old(FamilyNow()), FamilyNow())
      ensures Answered([sending], old(os.refusals), os.refusals, old(os.replies), os.replies)
      ensures HandedOver(old(os.datagrams), os.datagrams, os.answers, endpoint, payload, r.Done?)
      ensures os.datagrams
           == old(os.datagrams) + if sending.cause.Replied?
                                  then [Datagram(endpoint, address, address.family, payload, r.Done?)] else []
      ensures r.Fault? ==> r.error != InvalidArgument
      ensures old(Open()) ==>
                && implementation == old(implementation)
                && sending.cause.Replied? == (implementation.value.family == address.family)
                && sending.cause.WrongFamily? == (implementation.value.family != address.family)
                && (sending.cause.WrongFamily? ==> os.Snap() == old(os.Snap()))
      ensures !old(Open()) ==>
                os.tries == old(os.tries) + [Try(address, if sending.cause.Replied? then None else FailureOf(r))]
    {
      hide Conserves, AllSafe, HandedOver, Sound, Explained, Answered;
      ghost var family := FamilyNow();
      ghost var cause;
      r, cause := TrySend(endpoint, address, payload);
      sending := Sending(address, cause);
      OneSend(sending, family, FamilyNow());
      OneAnswer(sending, old(os.refusals), os.refusals, old(os.replies), os.replies);
      os.sends := os.sends + [sending];
    }

    method TrySend(endpoint: Endpoint, address: Address, payload: Bytes) returns (r: Io<nat>, ghost cause: Cause)
      modifies this, os`open, os`sockets, os`acquired, os`released, os`tries, os`refusals, os`datagrams, os`replies
      requires Valid() && implementation.Some? && Answer(Destination(endpoint), address) in os.answers
      ensures Valid() && implementation.Some? && SameCache(old(implementation).value, implementation.value)
      ensures Conserves(old(os.Snap()), old(Held()), os.Snap(), Held())
      ensures r == ResultOf(cause) && (r.Fault? ==> r.error != InvalidArgument)
      ensures os.refusals == old(os.refusals) + if cause.NoSocket? then [cause.error] else []
      ensures os.replies == old(os.replies) + if cause.Replied? then [cause.reply] else []
      ensures HandedOver(old(os.datagrams), os.datagrams, os.answers, endpoint, payload, r.Done?)
      ensures os.datagrams
           == old(os.datagrams) + if cause.Replied?
                                  then [Datagram(endpoint, address, address.family, payload, r.Done?)] else []
      ensures cause.Replied? ==> Open() && implementation.value.family == address.family
      ensures old(Open()) ==>
                && implementation == old(implementation)
                && !cause.NoSocket?
                && (cause.WrongFamily? <==> implementation.value.family != address.family)
                && (cause.WrongFamily? ==> os.Snap() == old(os.Snap()))
      ensures !old(Open()) ==>
                && !cause.WrongFamily?
                && os.tries == old(os.tries) + [Try(address, if cause.Replied? then None else FailureOf(r))]
    {
      hide Conserves, AllSafe, HandedOver, Sound;
      var prepared := EnsureOpen(address);
      if prepared.Fault? {
        cause := if old(Open()) then WrongFamily else NoSocket(prepared.error);
        NothingHandedOver(os.datagrams, os.answers, endpoint, payload);
        return Fault(prepared.error), cause;
      }
      ghost var before, held := os.Snap(), Held();
      AnswersStay(old(os.Snap()), old(Held()), before, held);
      r := Transmit(endpoint, address, payload);
      ConservesTransitive(old(os.Snap()), old(Held()), before, held, os.Snap(), Held());
      cause := Replied(r);
    }

    lemma HeldIsOpen()
      requires Valid()
      ensures Held() <= os.open
    {
    }

    // Caches a destination.
    method Remember(endpoint: Endpoint, address: Address)
      modifies `implementation
      requires Valid() && implementation.Some? && Answer(Destination(endpoint), address) in os.answers
      ensures Valid() && Held() == old(Held()) && FamilyNow() == old(FamilyNow())
      ensures implementation
           == Some(old(implementation).value.(cachedEndpoint := Some(endpoint), cachedAddress := Some(address)))
    {
      implementation := Some(
        implementation.value.(cachedEndpoint := Some(endpoint), cachedAddress := Some(address)));
    }

    // The loop over resolved addresses: in order, until the system takes a datagram, which is then cached.
    method SendFirst(endpoint: Endpoint, addresses: seq<Address>, payload: Bytes)
      returns (r: Io<nat>, ghost made: seq<Sending>)
      modifies this, os
      requires Valid() && implementation.Some?
      requires forall a :: a in addresses ==> Answer(Destination(endpoint), a) in os.answers
      ensures Valid() && implementation.Some?
      ensures Conserves(old(os.Snap()), old(Held()), os.Snap(), Held())
      ensures os.log == old(os.log) && os.lookups == old(os.lookups)
      ensures os.sends == old(os.sends) + made && InOrder(addresses, AsTries(made), r, SendFailed)
      ensures Explained(made, old(FamilyNow()), FamilyNow())
      ensures Answered(made, old(os.refusals), os.refusals, old(os.replies), os.replies)
      ensures HandedOver(old(os.datagrams), os.datagrams, os.answers, endpoint, payload, r.Done?)
      ensures r.Fault? ==> r.error != InvalidArgument
      ensures r.Fault? ==> SameCache(old(implementation).value, implementation.value)
      ensures r.Done? ==> made != [] && made[|made| - 1].cause == Replied(r)
      ensures r.Done? ==> CacheHit(endpoint)
      ensures r.Done? ==> os.datagrams[|os.datagrams| - 1].address == implementation.value.cachedAddress.value
    {
      hide Conserves, AllSafe, HandedOver, Sound, InOrder, AllFailed, Explained, Answered, AsTries;
      HeldIsOpen();
      ConservesNothing(os.Snap(), Held());
      NothingHandedOver(os.datagrams, os.answers, endpoint, payload);
      NothingFailed(addresses);
      NoSends(FamilyNow(), os.refusals, os.replies);
      var lastError: Option<TransportError> := None;
      made := [];
      for i := 0 to |addresses|
        invariant Valid() && implementation.Some? && SameCache(old(implementation).value, implementation.value)
        invariant Conserves(old(os.Snap()), old(Held()), os.Snap(), Held())
        invariant os.log == old(os.log) && os.lookups == old(os.lookups)
        invariant old(os.answers) <= os.answers
        invariant os.sends == old(os.sends) + made && AllFailed(addresses[..i], AsTries(made))
        invariant Explained(made, old(FamilyNow()), FamilyNow())
        invariant Answered(made, old(os.refusals), os.refusals, old(os.replies), os.replies)
        invariant HandedOver(old(os.datagrams), os.datagrams, os.answers, endpoint, payload, false)
        invariant lastError.None? <==> made == []
        invariant lastError.Some? ==> lastError == AsTries(made)[|made| - 1].failure
        invariant lastError.Some? ==> lastError.value != InvalidArgument
      {
        ghost var before, held, family := os.Snap(), Held(), FamilyNow();
        ghost var refusals, replies := os.refusals, os.replies;
        var address := addresses[i];
        ghost var sending;
        r, sending := SendAt(endpoint, address, payload);
        ConservesTransitive(old(os.Snap()), old(Held()), before, held, os.Snap(), Held());
        AnswersStay(before, held, os.Snap(), Held());
        HandedOverOn(
          old(os.datagrams), before.datagrams, before.answers, os.datagrams, os.answers, endpoint, payload, r.Done?);
        ExplainedOn(made, sending, old(FamilyNow()), family, FamilyNow());
        AnsweredOn(made, sending, old(os.refusals), refusals, os.refusals, old(os.replies), replies, os.replies);
        Reassociate(old(os.sends), made, [sending]);
        AsTriesAppend(made, [sending]);
        AsTriesOne(sending);
        if r.Done? {
          TakenIsLast(before.datagrams, os.datagrams, os.answers, endpoint, payload);
          SucceededInOrder(addresses, i, AsTries(made), r, SendFailed);
          Remember(endpoint, address);
          made := made + [sending];
          return;
        }
        OneMoreFailed(addresses, i, AsTries(made), Try(address, FailureOf(r)));
        made := made + [sending];
        lastError := Some(r.error);
      }
      r := Fault(if lastError.Some? then lastError.value else SendFailed);
      FailedInOrder(addresses, AsTries(made), r, SendFailed);
    }

    // Sends to the addresses that name resolution gives, in order, until the system takes a datagram.
    method SendResolved(endpoint: Endpoint, payload: Bytes) returns (r: Io<nat>, ghost made: seq<Sending>)
      modifies this, os
      requires Valid() && implementation.Some?
      ensures Valid() && implementation.Some?
      ensures Conserves(old(os.Snap()), old(Held()), os.Snap(), Held())
      ensures os.log == old(os.log) + [Queried(Destination(endpoint))]
      ensures os.sends == old(os.sends) + made
      ensures Tried(old(os.lookups), os.lookups, AsTries(old(os.sends)), AsTries(os.sends), Destination(endpoint),
                    r, SendFailed)
      ensures Explained(made, old(FamilyNow()), FamilyNow())
      ensures Answered(made, old(os.refusals), os.refusals, old(os.replies), os.replies)
      ensures HandedOver(old(os.datagrams), os.datagrams, os.answers, endpoint, payload, r.Done?)
      ensures r.Fault? ==> r.error != InvalidArgument
      ensures r.Fault? ==> SameCache(old(implementation).value, implementation.value)
      ensures r.Done? ==> made != [] && made[|made| - 1].cause == Replied(r)
      ensures r.Done? ==> CacheHit(endpoint)
      ensures r.Done? ==> os.datagrams[|os.datagrams| - 1].address == implementation.value.cachedAddress.value
    {
      hide Conserves, AllSafe, HandedOver, Tried, InOrder, AllFailed, Explained, Answered, AsTries;
      var addresses := os.Resolve(Destination(endpoint));
      ghost var lookup := Lookup(Destination(endpoint), addresses);
      ConservesAnswers(old(os.Snap()), Held(), os.Snap());
      NothingHandedOver(os.datagrams, os.answers, endpoint, payload);
      if addresses.Fault? {
        r, made := Fault(addresses.error), [];
        NoSends(FamilyNow(), os.refusals, os.replies);
        NothingFound(old(os.lookups), lookup, AsTries(os.sends), r, SendFailed);
        return;
      }
      ghost var resolved, held := os.Snap(), Held();
      r, made := SendFirst(endpoint, addresses.value, payload);
      ConservesTransitive(old(os.Snap()), held, resolved, held, os.Snap(), Held());
      AsTriesAppend(old(os.sends), made);
      FoundInOrder(old(os.lookups), lookup, AsTries(old(os.sends)), AsTries(made), r, SendFailed);
    }

    // Closes and binds anew; the socket then has the family of an answer for its own address.
    method Rebind(local: Endpoint) returns (r: Io<()>)
      modifies this, os`open, os`sockets, os`acquired, os`released
      modifies os`answers, os`log, os`lookups, os`tries, os`refusals
      requires Valid()
      ensures Valid()
      ensures r.Done? ==>
                && old(implementation).Some? && Open()
                && SameCache(old(implementation).value, implementation.value)
                && implementation.value.options.Valid()
                && (exists a :: Answer(Local(local), a) in os.answers && a.family == implementation.value.family)
    {
      hide Conserves, AllSafe, Tried, Refused;
      Close();
      r := Bind(local);
    }

    /**
      Send, close, bind, send again to the same endpoint: the second send asks nothing, and hands a
      datagram over exactly when the rebound socket has the family of the destination cached by the
      first.
      */
    method SendRebindSend(endpoint: Endpoint, local: Endpoint, payload: Bytes)
      returns (first: Io<nat>, bound: Io<()>, second: Io<nat>, ghost asked: seq<Effect>, ghost sent: seq<Datagram>)
      modifies this, os
      requires Valid()
      ensures Valid()
      ensures first.Done? && bound.Done? ==>
                && os.log == asked
                && CacheHit(endpoint)
                && sent != []
                && implementation.value.cachedAddress == Some(sent[|sent| - 1].address)
                && (exists a :: Answer(Local(local), a) in os.answers && a.family == implementation.value.family)
                && (os.datagrams == sent <==> implementation.value.family != sent[|sent| - 1].address.family)
                && (os.datagrams == sent ==> second == Fault(SendFailed))
    {
      hide Conserves, AllSafe, Sound, HandedOver, Tried, Refused, Explained, Answered, AsTries;
      first := SendTo(endpoint, payload);
      if first.Done? {
        TakenIsLast(old(os.datagrams), os.datagrams, os.answers, endpoint, payload);
      }
      bound := Rebind(local);
      asked, sent := os.log, os.datagrams;
      ghost var before, held := os.Snap(), Held();
      second := SendTo(endpoint, payload);
      AnswersStay(before, held, os.Snap(), Held());
    }
  }
}
