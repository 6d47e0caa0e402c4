/**
  The operating-system socket layer as an oracle. Every call may succeed or fail at will; the state
  records what the environment has seen so far: which handles are open and what was done with each,
  what name resolution answered, which datagrams were handed over, and when the caller slept.
  */
module Sockets {
  import opened Options
  import opened Words

  type Handle = nat
  datatype NativeSocket = Invalid | Native(handle: Handle)

  datatype TransportError =
    | InvalidArgument | AddressResolutionFailed | SocketCreationFailed | OptionFailed | BindFailed
    | ListenFailed | AcceptFailed | ConnectFailed | SendFailed | ReceiveFailed | PeerClosed
    | NotConnected | RetryLimitExceeded | DatagramTooLarge

  datatype Io<+T> = Done(value: T) | Fault(error: TransportError)

  datatype Endpoint = Endpoint(host: string, port: u16) {
    predicate Valid() {
      host != ""
    }
  }

  datatype Address = Address(storage: Bytes, family: int)

  // What name resolution was asked for, and one of the addresses it gave.
  datatype SocketType = StreamSocket | DatagramSocket
  datatype Query = Query(endpoint: Endpoint, kind: SocketType, passive: bool)
  datatype Answer = Answer(query: Query, address: Address)

  // A datagram handed to the system, and whether the system took it.
  datatype Datagram = Datagram(
    endpoint: Endpoint, address: Address, socketFamily: int, payload: Bytes, taken: bool)

  datatype IoOptions = IoOptions(receiveTimeout: int, sendTimeout: int) {
    predicate Valid() {
      receiveTimeout >= 0 && sendTimeout >= 0
    }
  }

  // What can be done to a socket before it is used.
  datatype Operation =
    | Configure(options: IoOptions) | ReuseAddress
    | ConnectTo(address: Address) | BindTo(address: Address) | Listen(backlog: int)

  function FaultOf(operation: Operation): (r: TransportError) {
    match operation
    case Configure(_) => OptionFailed
    case ReuseAddress => OptionFailed
    case ConnectTo(_) => ConnectFailed
    case BindTo(_) => BindFailed
    case Listen(_) => ListenFailed
  }

  // The life of a socket so far: its family, the operations that succeeded on it, the bytes written to it.
  datatype Record = Record(family: int, history: seq<Operation>, written: Bytes)

  // What an application does in time: name queries, sleeps, and finished attempts to connect.
  datatype Effect = Queried(query: Query) | Slept(delay: int) | Attempted(succeeded: bool)

  // An address that was tried, and the error if that failed.
  datatype Try = Try(address: Address, failure: Option<TransportError>)

  // What became of sending a datagram to an address: the open socket is of another family, the system
  // refused a socket for it, or the system replied to the datagram.
  datatype Cause = WrongFamily | NoSocket(error: TransportError) | Replied(reply: Io<nat>)
  datatype Sending = Sending(address: Address, cause: Cause)

  function ResultOf(cause: Cause): (r: Io<nat>) {
    match cause
    case WrongFamily => Fault(SendFailed)
    case NoSocket(error) => Fault(error)
    case Replied(reply) => reply
  }

  function FailureOf<T>(r: Io<T>): (failure: Option<TransportError>) {
    if r.Done? then None else Some(r.error)
  }

  // What name resolution said: the addresses in their order, or an error.
  datatype Lookup = Lookup(query: Query, found: Io<seq<Address>>)

  // The handles a socket variable stands for.
  function HandlesOf(socket: NativeSocket): (r: set<Handle>) {
    if socket.Native? then {socket.handle} else {}
  }

  // The state of the socket layer as a value.
  datatype Snapshot = Snapshot(
    open: set<Handle>, sockets: map<Handle, Record>, acquired: multiset<Handle>, released: multiset<Handle>,
    answers: set<Answer>, datagrams: seq<Datagram>)
  {
    // Every handle was closed at most as often as it was opened; the difference is what is open.
    ghost predicate Balanced() {
      acquired == released + multiset(open) && open <= sockets.Keys
    }
  }

  // The query for the destination of datagrams.
  function Destination(endpoint: Endpoint): (q: Query) {
    Query(endpoint, DatagramSocket, false)
  }

  // A datagram went to an address that resolution gave as a datagram destination for exactly the
  // requested endpoint, over a socket of its family.
  predicate Safe(d: Datagram, answers: set<Answer>) {
    Answer(Destination(d.endpoint), d.address) in answers && d.socketFamily == d.address.family
  }

  ghost predicate AllSafe(s: Snapshot) {
    forall d :: d in s.datagrams ==> Safe(d, s.answers)
  }

  /**
    What an operation of one object may do, when the object held `held` before and holds `held'`
    after: it closes handles of its own and acquires handles that were not open; what others hold
    stays open and untouched, the logs only grow, and no datagram is misdirected.
    */
  ghost predicate Conserves(s: Snapshot, held: set<Handle>, s': Snapshot, held': set<Handle>) {
    && s.Balanced() && s'.Balanced()
    && held <= s.open && held' <= s'.open
    && s'.open - held' == s.open - held
    && (held' - held) !! s.open
    && (forall h :: h in s.open - held ==> s'.sockets[h] == s.sockets[h])
    && s.answers <= s'.answers
    && s.datagrams <= s'.datagrams
    && (AllSafe(s) ==> AllSafe(s'))
  }

  lemma ConservesNothing(s: Snapshot, held: set<Handle>)
    requires s.Balanced() && held <= s.open
    ensures Conserves(s, held, s, held)
  {
  }

  lemma ConservesAnswers(s: Snapshot, held: set<Handle>, s': Snapshot)
    requires s.Balanced() && held <= s.open && s' == s.(answers := s'.answers) && s.answers <= s'.answers
    ensures Conserves(s, held, s', held)
  {
  }

  lemma ConservesOwn(s: Snapshot, h: Handle, record: Record, s': Snapshot)
    requires s.Balanced() && h in s.open && s' == s.(sockets := s.sockets[h := record])
    ensures Conserves(s, {h}, s', {h})
  {
  }

  lemma ConservesAcquired(s: Snapshot, h: Handle, record: Record, s': Snapshot)
    requires s.Balanced() && h !in s.open
    requires s' == s.(open := s.open + {h}, sockets := s.sockets[h := record], acquired := s.acquired + multiset{h})
    ensures s'.Balanced() && Conserves(s, {}, s', {h})
  {
    assert multiset(s'.open) == multiset(s.open) + multiset{h};
  }

  lemma ConservesReleased(s: Snapshot, h: Handle, s': Snapshot)
    requires s.Balanced() && h in s.open
    requires s' == s.(open := s.open - {h}, released := s.released + multiset{h})
    ensures s'.Balanced() && Conserves(s, {h}, s', {})
  {
    assert multiset(s.open) == multiset(s'.open) + multiset{h};
  }

  lemma ConservesTransitive(
    s0: Snapshot, held0: set<Handle>, s1: Snapshot, held1: set<Handle>, s2: Snapshot, held2: set<Handle>)
    requires Conserves(s0, held0, s1, held1) && Conserves(s1, held1, s2, held2)
    ensures Conserves(s0, held0, s2, held2)
  {
    assert forall h :: h in s0.open - held0 ==> h in s1.open - held1;
    assert forall h :: h in held2 - held0 ==> h !in s0.open - held0;
  }

  lemma OthersStayOpen(s: Snapshot, held: set<Handle>, s': Snapshot, held': set<Handle>, others: set<Handle>)
    requires Conserves(s, held, s', held') && others <= s.open - held
    ensures others <= s'.open - held'
  {
  }

  // These addresses were tried in this order, and every one failed.
  ghost predicate AllFailed(addresses: seq<Address>, tries: seq<Try>) {
    && |tries| == |addresses|
    && forall i :: 0 <= i < |tries| ==> tries[i].address == addresses[i] && tries[i].failure.Some?
  }

  // Success took the first address that did not fail; failure means that all failed, and reports the last error.
  ghost predicate InOrder<T>(addresses: seq<Address>, tries: seq<Try>, r: Io<T>, fallback: TransportError) {
    if r.Done? then
      && 0 < |tries| <= |addresses|
      && AllFailed(addresses[..|tries| - 1], tries[..|tries| - 1])
      && tries[|tries| - 1] == Try(addresses[|tries| - 1], None)
    else
      && AllFailed(addresses, tries)
      && r.error == if tries == [] then fallback else tries[|tries| - 1].failure.value
  }

  // One lookup was made, and what it found was tried in order.
  ghost predicate Tried<T>(
    lookups: seq<Lookup>, lookups': seq<Lookup>, tries: seq<Try>, tries': seq<Try>, query: Query, r: Io<T>,
    fallback: TransportError)
  {
    && |lookups'| == |lookups| + 1 && lookups' == lookups + [lookups'[|lookups|]]
    && lookups'[|lookups|].query == query
    && tries <= tries'
    && var found, made := lookups'[|lookups|].found, tries'[|tries|..];
       if found.Done? then InOrder(found.value, made, r, fallback)
       else made == [] && r.Fault? && r.error == found.error
  }

  // The errors of the tries that failed.
  function Errors(tries: seq<Try>): (r: seq<TransportError>) {
    if tries == [] then []
    else
      var last := tries[|tries| - 1];
      Errors(tries[..|tries| - 1]) + if last.failure.Some? then [last.failure.value] else []
  }

  lemma ErrorsSnoc(tries: seq<Try>, last: Try)
    ensures Errors(tries + [last]) == Errors(tries) + if last.failure.Some? then [last.failure.value] else []
  {
    assert (tries + [last])[..|tries|] == tries;
  }

  // Each failed try failed because the system refused, with that error; the system refused nothing else.
  ghost predicate Refused(
    refusals: seq<TransportError>, refusals': seq<TransportError>, tries: seq<Try>, tries': seq<Try>)
  {
    tries <= tries' && refusals' == refusals + Errors(tries'[|tries|..])
  }

  lemma NothingRefused(refusals: seq<TransportError>, tries: seq<Try>)
    ensures Refused(refusals, refusals, tries, tries)
  {
    assert tries[|tries|..] == [];
  }

  lemma RefusedOn(
    refusals: seq<TransportError>, refusals': seq<TransportError>, tries: seq<Try>, tries': seq<Try>, last: Try)
    requires Refused(refusals, refusals', tries, tries')
    ensures var more := if last.failure.Some? then [last.failure.value] else [];
            Refused(refusals, refusals' + more, tries, tries' + [last])
  {
    hide Errors;
    var made := tries'[|tries|..];
    assert (tries' + [last])[|tries|..] == made + [last];
    ErrorsSnoc(made, last);
    Reassociate(refusals, Errors(made), if last.failure.Some? then [last.failure.value] else []);
  }

  lemma NothingFailed(addresses: seq<Address>)
    ensures AllFailed(addresses[..0], [])
  {
  }

  lemma OneMoreFailed(addresses: seq<Address>, i: nat, tries: seq<Try>, last: Try)
    requires i < |addresses| && AllFailed(addresses[..i], tries)
    requires last.address == addresses[i] && last.failure.Some?
    ensures AllFailed(addresses[..i + 1], tries + [last])
  {
  }

  lemma SucceededInOrder<T>(addresses: seq<Address>, i: nat, tries: seq<Try>, r: Io<T>, fallback: TransportError)
    requires i < |addresses| && AllFailed(addresses[..i], tries) && r.Done?
    ensures InOrder(addresses, tries + [Try(addresses[i], None)], r, fallback)
  {
    assert (tries + [Try(addresses[i], None)])[..i] == tries;
  }

  lemma FailedInOrder<T>(addresses: seq<Address>, tries: seq<Try>, r: Io<T>, fallback: TransportError)
    requires AllFailed(addresses[..|addresses|], tries)
    requires r.Fault? && r.error == if tries == [] then fallback else tries[|tries| - 1].failure.value
    ensures InOrder(addresses, tries, r, fallback)
  {
  }

  lemma NothingFound<T>(
    lookups: seq<Lookup>, lookup: Lookup, tries: seq<Try>, r: Io<T>, fallback: TransportError)
    requires lookup.found.Fault? && r.Fault? && r.error == lookup.found.error
    ensures Tried(lookups, lookups + [lookup], tries, tries, lookup.query, r, fallback)
  {
  }

  lemma FoundInOrder<T>(
    lookups: seq<Lookup>, lookup: Lookup, tries: seq<Try>, made: seq<Try>, r: Io<T>, fallback: TransportError)
    requires lookup.found.Done? && InOrder(lookup.found.value, made, r, fallback)
    ensures Tried(lookups, lookups + [lookup], tries, tries + made, lookup.query, r, fallback)
  {
    assert (tries + made)[|tries|..] == made;
  }

  // The same result under another type.
  lemma TriedAs<T, U>(
    lookups: seq<Lookup>, lookups': seq<Lookup>, tries: seq<Try>, tries': seq<Try>, query: Query, r: Io<T>, r': Io<U>,
    fallback: TransportError)
    requires Tried(lookups, lookups', tries, tries', query, r, fallback)
    requires r.Done? == r'.Done? && (r.Fault? ==> r.error == r'.error)
    ensures Tried(lookups, lookups', tries, tries', query, r', fallback)
  {
  }

  class SocketLayer {
    var open: set<Handle>
    var sockets: map<Handle, Record>
    var acquired: multiset<Handle>
    var released: multiset<Handle>
    var answers: set<Answer>
    var datagrams: seq<Datagram>
    ghost var log: seq<Effect>
    ghost var lookups: seq<Lookup>
    ghost var tries: seq<Try>     // addresses for which a socket was to be established
    ghost var sends: seq<Sending> // addresses to which a datagram was to be sent
    // What the system itself answered, call by call.
    ghost var refusals: seq<TransportError>   // sockets it did not create, accept or prepare
    ghost var replies: seq<Io<nat>>           // to writes and datagrams
    ghost var arrivals: seq<Io<Bytes>>        // to reads

    ghost function Snap(): (r: Snapshot)
      reads this
    {
      Snapshot(open, sockets, acquired, released, answers, datagrams)
    }

    ghost predicate Valid()
      reads this
    {
      Snap().Balanced()
    }

    method Resolve(query: Query) returns (r: Io<seq<Address>>)
      modifies `answers, `log, `lookups
      ensures lookups == old(lookups) + [Lookup(query, r)]
      ensures answers == old(answers) + if r.Done? then set a | a in r.value :: Answer(query, a) else {}
      ensures log == old(log) + [Queried(query)]
      ensures r.Fault? ==> r.error == AddressResolutionFailed
    {
      log := log + [Queried(query)];
      var succeeds: bool := *;
      if !succeeds {
        r := Fault(AddressResolutionFailed);
      } else {
        var addresses: seq<Address> :| |addresses| >= 0;
        answers := answers + set a | a in addresses :: Answer(query, a);
        r := Done(addresses);
      }
      lookups := lookups + [Lookup(query, r)];
    }

    // A handle that is not open now; the system may hand out a number again after it was closed.
    method Acquire(family: int, fault: TransportError) returns (r: Io<NativeSocket>)
      modifies `open, `sockets, `acquired, `refusals
      requires Valid()
      ensures Valid()
      ensures r.Fault? ==> unchanged(`open, `sockets, `acquired) && r.error == fault
      ensures refusals == old(refusals) + if r.Done? then [] else [r.error]
      ensures r.Done? ==>
                && r.value.Native? && r.value.handle in open && r.value.handle in sockets
                && sockets[r.value.handle] == Record(family, [], [])
      ensures Conserves(old(Snap()), {}, Snap(), if r.Done? then HandlesOf(r.value) else {})
    {
      hide Conserves;
      ConservesNothing(Snap(), {});
      var h: Handle :| h >= 0;
      var succeeds: bool := *;
      if !succeeds || h in open {
        refusals := refusals + [fault];
        return Fault(fault);
      }
      open := open + {h};
      acquired := acquired + multiset{h};
      sockets := sockets[h := Record(family, [], [])];
      ConservesAcquired(old(Snap()), h, Record(family, [], []), Snap());
      return Done(Native(h));
    }

    method Attempt(socket: NativeSocket, operation: Operation) returns (r: Io<()>)
      modifies `sockets, `refusals
      requires Valid() && socket.Native? && socket.handle in open
      ensures Valid() && socket.handle in open && socket.handle in sockets
      ensures r.Fault? ==> r.error == FaultOf(operation) && sockets == old(sockets)
      ensures refusals == old(refusals) + if r.Done? then [] else [r.error]
      ensures r.Done? ==>
                var record := old(sockets)[socket.handle];
                sockets[socket.handle] == record.(history := record.history + [operation])
      ensures Conserves(old(Snap()), HandlesOf(socket), Snap(), HandlesOf(socket))
    {
      hide Conserves;
      ConservesNothing(Snap(), HandlesOf(socket));
      var succeeds: bool := *;
      if !succeeds {
        refusals := refusals + [FaultOf(operation)];
        return Fault(FaultOf(operation));
      }
      var record := sockets[socket.handle];
      record := record.(history := record.history + [operation]);
      sockets := sockets[socket.handle := record];
      ConservesOwn(old(Snap()), socket.handle, record, Snap());
      return Done(());
    }

    method Send(socket: NativeSocket, bytes: Bytes) returns (r: Io<nat>)
      modifies `sockets, `replies
      requires Valid() && socket.Native? && socket.handle in open
      ensures Valid() && socket.handle in open
      ensures replies == old(replies) + [r]
      ensures r.Fault? ==> sockets == old(sockets) && r.error == SendFailed
      ensures r.Done? ==>
                && r.value <= |bytes|
                && var record := old(sockets)[socket.handle];
                   sockets[socket.handle] == record.(written := record.written + bytes[..r.value])
      ensures Conserves(old(Snap()), HandlesOf(socket), Snap(), HandlesOf(socket))
    {
      hide Conserves;
      ConservesNothing(Snap(), HandlesOf(socket));
      var succeeds: bool := *;
      if !succeeds {
        r := Fault(SendFailed);
        replies := replies + [r];
        return;
      }
      var count: nat :| count <= |bytes|;
      var record := sockets[socket.handle];
      record := record.(written := record.written + bytes[..count]);
      sockets := sockets[socket.handle := record];
      ConservesOwn(old(Snap()), socket.handle, record, Snap());
      r := Done(count);
      replies := replies + [r];
    }

    // An empty read means that the peer has closed.
    method Receive(socket: NativeSocket, capacity: nat) returns (r: Io<Bytes>)
      modifies `arrivals
      requires socket.Native? && socket.handle in open
      ensures arrivals == old(arrivals) + [r]
      ensures r.Done? ==> |r.value| <= capacity
      ensures r.Fault? ==> r.error == ReceiveFailed
    {
      var succeeds: bool := *;
      if succeeds {
        var bytes: Bytes :| |bytes| <= capacity;
        r := Done(bytes);
      } else {
        r := Fault(ReceiveFailed);
      }
      arrivals := arrivals + [r];
    }

    // `endpoint` is the destination the application asked for.
    method SendDatagram(socket: NativeSocket, endpoint: Endpoint, address: Address, payload: Bytes)
      returns (r: Io<nat>)
      modifies `datagrams, `replies
      requires Valid() && socket.Native? && socket.handle in open
      ensures replies == old(replies) + [r]
      ensures datagrams
           == old(datagrams) + [Datagram(endpoint, address, sockets[socket.handle].family, payload, r.Done?)]
      ensures r.Done? ==> r.value <= |payload|
      ensures r.Fault? ==> r.error == SendFailed
    {
      var succeeds: bool := *;
      datagrams := datagrams + [Datagram(endpoint, address, sockets[socket.handle].family, payload, succeeds)];
      if !succeeds {
        r := Fault(SendFailed);
        replies := replies + [r];
        return;
      }
      var count: nat :| count <= |payload|;
      r := Done(count);
      replies := replies + [r];
    }

    // Closing needs an open handle: a double close would violate the precondition.
    method CloseSocket(socket: NativeSocket) returns (r: NativeSocket)
      modifies `open, `released
      requires Valid() && HandlesOf(socket) <= open
      ensures Valid()
      ensures r == Invalid
      ensures open == old(open) - HandlesOf(socket)
      ensures Conserves(old(Snap()), HandlesOf(socket), Snap(), {})
    {
      hide Conserves;
      if socket.Invalid? {
        ConservesNothing(Snap(), {});
        return socket;
      }
      open := open - {socket.handle};
      released := released + multiset{socket.handle};
      ConservesReleased(old(Snap()), socket.handle, Snap());
      return Invalid;
    }

    /**
      Creates a socket for an address and takes it through a list of operations, such as setting
      options and connecting; an operation that fails closes the socket again.
      */
    method Establish(address: Address, operations: seq<Operation>) returns (r: Io<NativeSocket>)
      modifies `open, `sockets, `acquired, `released, `tries, `refusals
      requires Valid()
      ensures Valid()
      ensures tries == old(tries) + [Try(address, FailureOf(r))]
      ensures refusals == old(refusals) + if r.Done? then [] else [r.error]
      ensures r.Fault? ==> r.error != InvalidArgument
      ensures r.Done? ==>
                && r.value.Native?
                && r.value.handle in open
                && sockets[r.value.handle] == Record(address.family, operations, [])
      ensures Conserves(old(Snap()), {}, Snap(), if r.Done? then HandlesOf(r.value) else {})
    {
      r := Prepare(address.family, SocketCreationFailed, operations);
      tries := tries + [Try(address, FailureOf(r))];
    }

    // A socket that the system creates or accepts, or fails to with `fault`, taken through operations.
    method Prepare(family: int, fault: TransportError, operations: seq<Operation>) returns (r: Io<NativeSocket>)
      modifies `open, `sockets, `acquired, `released, `refusals
      requires Valid()
      ensures Valid()
      ensures refusals == old(refusals) + if r.Done? then [] else [r.error]
      ensures r.Fault? && fault != InvalidArgument ==> r.error != InvalidArgument
      ensures r.Done? ==>
                && r.value.Native?
                && r.value.handle in open
                && sockets[r.value.handle] == Record(family, operations, [])
      ensures Conserves(old(Snap()), {}, Snap(), if r.Done? then HandlesOf(r.value) else {})
    {
      hide Conserves, Snap, Snapshot.Balanced;
      r := Acquire(family, fault);
      if r.Fault? {
        return;
      }
      for i := 0 to |operations|
        invariant Valid() && r.value.handle in open && r.value.handle in sockets && refusals == old(refusals)
        invariant sockets[r.value.handle] == Record(family, operations[..i], [])
        invariant Conserves(old(Snap()), {}, Snap(), HandlesOf(r.value))
      {
        ghost var before := Snap();
        var done := Attempt(r.value, operations[i]);
        ConservesTransitive(old(Snap()), {}, before, HandlesOf(r.value), Snap(), HandlesOf(r.value));
        if done.Fault? {
          before := Snap();
          var _ := CloseSocket(r.value);
          ConservesTransitive(old(Snap()), {}, before, HandlesOf(r.value), Snap(), {});
          return Fault(done.error);
        }
        assert operations[..i] + [operations[i]] == operations[..i + 1];
      }
      assert operations[..|operations|] == operations;
    }

    /**
      The loop over resolved addresses that connecting and binding share: it tries the addresses in
      order, takes the first that can be established, and otherwise reports the last error.
      */
    method EstablishFirst(addresses: seq<Address>, plan: Address -> seq<Operation>, fallback: TransportError)
      returns (r: Io<NativeSocket>, chosen: Address, ghost made: seq<Try>)
      modifies `open, `sockets, `acquired, `released, `tries, `refusals
      requires Valid()
      ensures Valid()
      ensures tries == old(tries) + made && InOrder(addresses, made, r, fallback)
      ensures r.Done? ==> tries != [] && tries[|tries| - 1] == Try(chosen, None) && chosen in addresses
      ensures Refused(old(refusals), refusals, old(tries), tries)
      ensures r.Fault? && fallback != InvalidArgument ==> r.error != InvalidArgument
      ensures r.Done? ==>
                && r.value.Native?
                && r.value.handle in open
                && sockets[r.value.handle] == Record(chosen.family, plan(chosen), [])
      ensures Conserves(old(Snap()), {}, Snap(), if r.Done? then HandlesOf(r.value) else {})
    {
      hide Conserves, AllFailed, InOrder, Refused;
      ConservesNothing(Snap(), {});
      NothingRefused(refusals, tries);
      chosen := Address([], 0);
      var lastError: Option<TransportError> := None;
      made := [];
      NothingFailed(addresses);
      for i := 0 to |addresses|
        invariant Valid()
        invariant Conserves(old(Snap()), {}, Snap(), {})
        invariant Refused(old(refusals), refusals, old(tries), tries)
        invariant tries == old(tries) + made && AllFailed(addresses[..i], made)
        invariant lastError.None? <==> made == []
        invariant lastError.Some? ==> lastError == made[|made| - 1].failure
        invariant lastError.Some? ==> lastError.value != InvalidArgument
      {
        ghost var snap, refused, tried := Snap(), refusals, tries;
        chosen := addresses[i];
        r := Establish(chosen, plan(chosen));
        ConservesTransitive(old(Snap()), {}, snap, {}, Snap(), if r.Done? then HandlesOf(r.value) else {});
        ghost var last := tries[|tries| - 1];
        RefusedOn(old(refusals), refused, old(tries), tried, last);
        Reassociate(old(tries), made, [last]);
        if r.Done? {
          SucceededInOrder(addresses, i, made, r, fallback);
          made := made + [last];
          return;
        }
        OneMoreFailed(addresses, i, made, last);
        made := made + [last];
        lastError := Some(r.error);
      }
      r := Fault(if lastError.Some? then lastError.value else fallback);
      FailedInOrder(addresses, made, r, fallback);
    }

    // Resolves an endpoint and establishes the first of its addresses that can be.
    method Reach(query: Query, plan: Address -> seq<Operation>, fallback: TransportError)
      returns (r: Io<NativeSocket>, chosen: Address)
      modifies `open, `sockets, `acquired, `released, `answers, `log, `lookups, `tries, `refusals
      requires Valid()
      ensures Valid()
      ensures log == old(log) + [Queried(query)]
      ensures Tried(old(lookups), lookups, old(tries), tries, query, r, fallback)
      ensures Refused(old(refusals), refusals, old(tries), tries)
      ensures r.Fault? && fallback != InvalidArgument ==> r.error != InvalidArgument
      ensures r.Done? ==>
                && r.value.Native?
                && tries != [] && tries[|tries| - 1].address == chosen
                && Answer(query, chosen) in answers
                && r.value.handle in open && r.value.handle in sockets
                && sockets[r.value.handle] == Record(chosen.family, plan(chosen), [])
      ensures Conserves(old(Snap()), {}, Snap(), if r.Done? then HandlesOf(r.value) else {})
    {
      hide Conserves, InOrder, Tried, Refused;
      NothingRefused(refusals, tries);
      chosen := Address([], 0);
      var addresses := Resolve(query);
      ghost var resolved, lookup := Snap(), Lookup(query, addresses);
      ConservesAnswers(old(Snap()), {}, resolved);
      if addresses.Fault? {
        r := Fault(addresses.error);
        NothingFound(old(lookups), lookup, tries, r, fallback);
        return;
      }
      ghost var made;
      r, chosen, made := EstablishFirst(addresses.value, plan, fallback);
      ConservesTransitive(old(Snap()), {}, resolved, {}, Snap(), if r.Done? then HandlesOf(r.value) else {});
      FoundInOrder(old(lookups), lookup, old(tries), made, r, fallback);
    }

    method Sleep(delay: int)
      modifies `log
      ensures log == old(log) + [Slept(delay)]
    {
      log := log + [Slept(delay)];
    }
  }
}
