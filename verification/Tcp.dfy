/** TCP streams and listeners over the socket layer. */
module Tcp {
  import opened Options
  import opened Words
  import opened Sockets
  import opened Backoff

  datatype StreamImpl = StreamImpl(
    socket: NativeSocket, options: IoOptions, policy: ReconnectPolicy, endpoint: Option<Endpoint>)

  datatype ListenerImpl = ListenerImpl(socket: NativeSocket, options: IoOptions)

  // A remembered endpoint was once accepted by connect, and options and policy never change.
  ghost predicate Remembers(impl: StreamImpl) {
    impl.endpoint.Some? ==> impl.endpoint.value.Valid() && impl.options.Valid() && impl.policy.Valid()
  }

  // The query of a client for its peer.
  function Remote(endpoint: Endpoint): (q: Query) {
    Query(endpoint, StreamSocket, false)
  }

  // The system took something each time.
  ghost predicate AllTook(replies: seq<Io<nat>>) {
    forall i :: 0 <= i < |replies| ==> replies[i].Done? && replies[i].value > 0
  }

  // How a series of writes ends: each took something, or the last failed or took nothing.
  ghost predicate Ends(replies: seq<Io<nat>>, r: Io<nat>) {
    && replies != []
    && AllTook(replies[..|replies| - 1])
    && var last := replies[|replies| - 1];
       if r.Done? then last.Done? && last.value > 0
       else last == Fault(r.error) || (last == Done(0) && r.error == PeerClosed)
  }

  lemma PrefixGrows(start: Bytes, bytes: Bytes, offset: nat, count: nat)
    requires offset + count <= |bytes|
    ensures start + bytes[..offset] + bytes[offset..][..count] == start + bytes[..offset + count]
  {
    assert bytes[..offset] + bytes[offset..][..count] == bytes[..offset + count];
  }

  lemma NothingTook()
    ensures AllTook([])
  {
  }

  lemma TookOn(replies: seq<Io<nat>>, last: Io<nat>)
    requires AllTook(replies) && last.Done? && last.value > 0
    ensures AllTook(replies + [last])
  {
  }

  lemma EndsWith(before: seq<Io<nat>>, last: Io<nat>)
    requires AllTook(before) && (last.Fault? || last.value == 0)
    ensures Ends(before + [last], if last.Fault? then last else Fault(PeerClosed))
  {
    assert (before + [last])[..|before|] == before;
  }

  lemma AllTookEnds(replies: seq<Io<nat>>, count: nat)
    requires AllTook(replies)
    ensures replies != [] ==> Ends(replies, Done(count))
  {
  }

  class TcpStream {
    const os: SocketLayer
    // Empty once the stream has been moved from.
    var implementation: Option<StreamImpl>

    ghost function Held(): (r: set<Handle>)
      reads this
    {
      if implementation.Some? then HandlesOf(implementation.value.socket) else {}
    }

    ghost predicate Valid()
      reads this, os
    {
      os.Valid() && Held() <= os.open && (implementation.Some? ==> Remembers(implementation.value))
    }

    predicate Connected()
      reads this
    {
      implementation.Some? && implementation.value.socket.Native?
    }

    constructor (os: SocketLayer, options: IoOptions, policy: ReconnectPolicy)
      requires os.Valid()
      ensures Valid() && this.os == os && Held() == {}
      ensures implementation == Some(StreamImpl(Invalid, options, policy, None))
    {
      this.os := os;
      implementation := Some(StreamImpl(Invalid, options, policy, None));
    }

    // An accepted connection.
    constructor Accepted(os: SocketLayer, socket: NativeSocket, options: IoOptions)
      requires os.Valid() && HandlesOf(socket) <= os.open
      ensures Valid() && this.os == os && Held() == HandlesOf(socket)
      ensures implementation == Some(StreamImpl(socket, options, DEFAULT_POLICY, None))
    {
      this.os := os;
      implementation := Some(StreamImpl(socket, options, DEFAULT_POLICY, None));
    }

    method Close()
      modifies this, os`open, os`released
      requires Valid()
      ensures Valid() && Held() == {}
      ensures Conserves(old(os.Snap()), old(Held()), os.Snap(), Held())
      ensures os.open == old(os.open) - old(Held())
      ensures implementation == if old(implementation).None? then None
                                else Some(old(implementation).value.(socket := Invalid))
    {
      hide Conserves;
      ConservesNothing(os.Snap(), Held());
      if implementation.Some? {
        var socket := os.CloseSocket(implementation.value.socket);
        implementation := Some(implementation.value.(socket := socket));
      }
    }

    // Move assignment: closes what this stream held and takes over the other's connection.
    method MoveFrom(other: TcpStream)
      modifies this, other, os`open, os`released
      requires Valid() && other.Valid() && other.os == os
      requires this != other ==> Held() !! other.Held()
      ensures Valid() && other.Valid()
      ensures this == other ==> implementation == old(implementation) && os.Snap() == old(os.Snap())
      ensures this != other ==>
                && implementation == old(other.implementation)
                && other.implementation.None?
                && Conserves(old(os.Snap()), old(Held()), os.Snap(), {})
    {
      hide Conserves;
      if this != other {
        Close();
        implementation := other.implementation;
        other.implementation := None;
      }
    }

    /**
      Connects to the first address that can be established. Wrong arguments change nothing and ask
      nothing; otherwise there is one name query, and the stream is connected exactly on success.
      */
    method Connect(endpoint: Endpoint) returns (r: Io<()>)
      modifies this, os`open, os`sockets, os`acquired, os`released
      modifies os`answers, os`log, os`lookups, os`tries, os`refusals
      requires Valid()
      ensures Valid()
      ensures Conserves(old(os.Snap()), old(Held()), os.Snap(), Held())
      ensures r == Fault(InvalidArgument) <==> !old(Accepts(endpoint))
      ensures !old(Accepts(endpoint)) ==>
                && implementation == old(implementation)
                && os.Snap() == old(os.Snap())
                && os.log == old(os.log) + [Attempted(false)]
                && os.lookups == old(os.lookups) && os.tries == old(os.tries) && os.refusals == old(os.refusals)
      ensures old(Accepts(endpoint)) ==>
                && implementation.Some?
                && implementation.value
                   == old(implementation).value.(socket := implementation.value.socket, endpoint := Some(endpoint))
                && (r.Done? <==> Connected())
                && os.log == old(os.log) + AttemptOnce(Remote(endpoint), r.Done?)
                && Tried(old(os.lookups), os.lookups, old(os.tries), os.tries, Remote(endpoint), r, ConnectFailed)
                && Refused(old(os.refusals), os.refusals, old(os.tries), os.tries)
      ensures r.Done? ==> IsConnectedFor(endpoint)
    {
      hide Conserves, Tried, Refused;
      ConservesNothing(os.Snap(), Held());
      if implementation.None? {
        r := Fault(InvalidArgument);
      } else if !endpoint.Valid() || !implementation.value.options.Valid() || !implementation.value.policy.Valid() {
        r := Fault(InvalidArgument);
      } else {
        r := Dial(endpoint);
      }
      os.log := os.log + [Attempted(r.Done?)];
    }

    // Connecting with arguments that were checked.
    method Dial(endpoint: Endpoint) returns (r: Io<()>)
      modifies this, os`open, os`sockets, os`acquired, os`released
      modifies os`answers, os`log, os`lookups, os`tries, os`refusals
      requires Valid() && Accepts(endpoint)
      ensures Valid()
      ensures Conserves(old(os.Snap()), old(Held()), os.Snap(), Held())
      ensures implementation.Some?
      ensures implementation.value
           == old(implementation).value.(socket := implementation.value.socket, endpoint := Some(endpoint))
      ensures r.Done? <==> Connected()
      ensures r.Done? ==> IsConnectedFor(endpoint)
      ensures r.Fault? ==> r.error != InvalidArgument
      ensures os.log == old(os.log) + [Queried(Remote(endpoint))]
      ensures Tried(old(os.lookups), os.lookups, old(os.tries), os.tries, Remote(endpoint), r, ConnectFailed)
      ensures Refused(old(os.refusals), os.refusals, old(os.tries), os.tries)
    {
      hide Conserves, Tried, Refused, SocketLayer.Valid, SocketLayer.Snap;
      Close();
      implementation := Some(implementation.value.(endpoint := Some(endpoint)));
      ghost var before := os.Snap();
      var options := implementation.value.options;
      var socket, chosen := os.Reach(Remote(endpoint), a => [Configure(options), ConnectTo(a)], ConnectFailed);
      ghost var held := if socket.Done? then HandlesOf(socket.value) else {};
      ConservesTransitive(old(os.Snap()), old(Held()), before, {}, os.Snap(), held);
      r := if socket.Done? then Done(()) else Fault(socket.error);
      TriedAs(
        old(os.lookups), os.lookups, old(os.tries), os.tries, Remote(endpoint), socket, r, ConnectFailed);
      if socket.Fault? {
        return;
      }
      implementation := Some(implementation.value.(socket := socket.value));
      assert Answer(Remote(endpoint), chosen) in os.answers && IsConnectedTo(chosen);
    }

    // The stream's socket was made for this address, then configured, then connected to it.
    ghost predicate IsConnectedTo(address: Address)
      reads this, os
    {
      && Connected()
      && implementation.value.socket.handle in os.sockets
      && os.sockets[implementation.value.socket.handle]
         == Record(address.family, [Configure(implementation.value.options), ConnectTo(address)], [])
    }

    // Connected to the address tried last, which name resolution gave for this endpoint.
    ghost predicate IsConnectedFor(endpoint: Endpoint)
      reads this, os
    {
      && os.tries != []
      && var address := os.tries[|os.tries| - 1].address;
         Answer(Remote(endpoint), address) in os.answers && IsConnectedTo(address)
    }

    // The arguments and configuration a connection attempt demands.
    predicate Accepts(endpoint: Endpoint)
      reads this
    {
      && implementation.Some?
      && endpoint.Valid()
      && implementation.value.options.Valid()
      && implementation.value.policy.Valid()
    }

    method Send(bytes: Bytes) returns (r: Io<nat>)
      modifies this, os`open, os`released, os`sockets, os`replies
      requires Valid()
      ensures Valid()
      ensures Conserves(old(os.Snap()), old(Held()), os.Snap(), Held())
      ensures os.replies == old(os.replies) + if old(Connected()) && bytes != [] then [r] else []
      ensures old(Connected()) && bytes == [] ==> r == Done(0)
      ensures !old(Connected()) ==> r == Fault(NotConnected) && os.Snap() == old(os.Snap())
      ensures r.Done? ==>
                && r.value <= |bytes|
                && implementation == old(implementation)
                && Connected()
      ensures r.Fault? ==> !Connected()
      ensures old(Connected()) ==>
                && old(Handle()) in os.sockets
                && Written(old(Handle())) == old(Written(Handle())) + if r.Done? then bytes[..r.value] else []
    {
      if !Connected() {
        return Fault(NotConnected);
      }
      if bytes == [] {
        return Done(0);
      }
      r := os.Send(implementation.value.socket, bytes);
      if r.Fault? {
        Close();
      }
    }

    ghost function Handle(): (h: Handle)
      requires Connected()
      reads this
    {
      implementation.value.socket.handle
    }

    // The bytes the system has taken for a handle.
    ghost function Written(h: Handle): (r: Bytes)
      requires h in os.sockets
      reads os
    {
      os.sockets[h].written
    }

    /**
      Every partial-write behaviour of the system writes a prefix of the bytes, in order; the call
      succeeds exactly when all of them were written, and otherwise leaves the stream closed and says
      why: the system's error, or that it took nothing.
      */
    method SendAll(bytes: Bytes) returns (r: Io<nat>, ghost sent: nat)
      modifies this, os`open, os`released, os`sockets, os`replies
      requires Valid()
      ensures Valid()
      ensures Conserves(old(os.Snap()), old(Held()), os.Snap(), Held())
      ensures sent <= |bytes|
      ensures old(Connected()) ==>
                && old(Handle()) in os.sockets
                && Written(old(Handle())) == old(Written(Handle())) + bytes[..sent]
      ensures r.Done? <==> sent == |bytes|
      ensures r.Done? ==> r.value == |bytes| && implementation == old(implementation)
      ensures r.Fault? ==> !Connected()
      ensures old(os.replies) <= os.replies
      ensures var made := os.replies[|old(os.replies)|..];
              if bytes == [] then made == [] && r == Done(0)
              else if !old(Connected()) then made == [] && r == Fault(NotConnected)
              else Ends(made, r)
    {
      hide Conserves, Ends;
      if !Connected() {
        // The first write reports it.
        ConservesNothing(os.Snap(), Held());
        r, sent := Done(0), 0;
        if bytes != [] {
          r := Send(bytes);
        }
        return;
      }
      ghost var made;
      r, sent, made := WriteAll(bytes);
      assert os.replies[|old(os.replies)|..] == made;
    }

    // One turn of the loop of send_all: a write that takes nothing also closes the stream.
    method SendSome(bytes: Bytes) returns (r: Io<nat>, ghost reply: Io<nat>)
      modifies this, os`open, os`released, os`sockets, os`replies
      requires Valid() && Connected() && bytes != []
      ensures Valid()
      ensures Conserves(old(os.Snap()), old(Held()), os.Snap(), Held())
      ensures os.replies == old(os.replies) + [reply]
      ensures r == if reply == Done(0) then Fault(PeerClosed) else reply
      ensures r.Done? ==> 0 < r.value <= |bytes| && implementation == old(implementation)
      ensures r.Fault? ==> !Connected()
      ensures old(Handle()) in os.sockets
      ensures Written(old(Handle())) == old(Written(Handle())) + if r.Done? then bytes[..r.value] else []
    {
      hide Conserves;
      r := Send(bytes);
      reply := r;
      if r.Done? && r.value == 0 {
        ghost var before, held := os.Snap(), Held();
        Close();
        ConservesTransitive(old(os.Snap()), old(Held()), before, held, os.Snap(), Held());
        r := Fault(PeerClosed);
      }
    }

    // The loop of send_all on a connected stream, with the system's replies to its writes.
    method WriteAll(bytes: Bytes) returns (r: Io<nat>, ghost sent: nat, ghost made: seq<Io<nat>>)
      modifies this, os`open, os`released, os`sockets, os`replies
      requires Valid() && Connected()
      ensures Valid()
      ensures Conserves(old(os.Snap()), old(Held()), os.Snap(), Held())
      ensures sent <= |bytes| && old(Handle()) in os.sockets
      ensures Written(old(Handle())) == old(Written(Handle())) + bytes[..sent]
      ensures r.Done? <==> sent == |bytes|
      ensures r.Done? ==> r.value == |bytes| && implementation == old(implementation)
      ensures r.Fault? ==> !Connected()
      ensures os.replies == old(os.replies) + made
      ensures if bytes == [] then made == [] else Ends(made, r)
    {
      hide Conserves, Ends, AllTook;
      var offset := 0;
      ghost var h, start := Handle(), Written(Handle());
      made := [];
      NothingTook();
      assert start + bytes[..0] == start;
      ConservesNothing(os.Snap(), Held());
      while offset < |bytes|
        invariant offset <= |bytes|
        invariant Valid() && Connected() && implementation == old(implementation)
        invariant Conserves(old(os.Snap()), old(Held()), os.Snap(), Held())
        invariant Written(h) == start + bytes[..offset]
        invariant os.replies == old(os.replies) + made && AllTook(made) && (made == [] <==> offset == 0)
      {
        ghost var before := os.Snap();
        var chunk;
        ghost var reply;
        chunk, reply := SendSome(bytes[offset..]);
        ConservesTransitive(old(os.Snap()), old(Held()), before, old(Held()), os.Snap(), Held());
        Reassociate(old(os.replies), made, [reply]);
        if chunk.Fault? {
          EndsWith(made, reply);
          return chunk, offset, made + [reply];
        }
        PrefixGrows(start, bytes, offset, chunk.value);
        TookOn(made, reply);
        offset := offset + chunk.value;
        made := made + [reply];
      }
      AllTookEnds(made, offset);
      return Done(offset), offset, made;
    }

    /**
      Returns what the system delivered, all of it: a connected stream makes one read, and an empty
      one means that the peer has closed.
      */
    method Receive(capacity: nat) returns (r: Io<Bytes>)
      modifies this, os`open, os`released, os`arrivals
      requires Valid()
      ensures Valid()
      ensures Conserves(old(os.Snap()), old(Held()), os.Snap(), Held())
      ensures r.Done? ==> implementation == old(implementation) && Connected()
      ensures r.Done? ==> |r.value| <= capacity && (r.value == [] ==> capacity == 0)
      ensures r.Fault? ==> !Connected()
      ensures old(Connected()) && capacity > 0 ==>
                && |os.arrivals| == |old(os.arrivals)| + 1
                && os.arrivals == old(os.arrivals) + [os.arrivals[|old(os.arrivals)|]]
                && var arrived := os.arrivals[|old(os.arrivals)|];
                   r == if arrived == Done([]) then Fault(PeerClosed) else arrived
      ensures !old(Connected()) || capacity == 0 ==>
                && os.arrivals == old(os.arrivals)
                && r == if old(Connected()) then Done([]) else Fault(NotConnected)
    {
      if !Connected() {
        return Fault(NotConnected);
      }
      if capacity == 0 {
        return Done([]);
      }
      r := os.Receive(implementation.value.socket, capacity);
      if r.Fault? {
        Close();
        return;
      }
      if r.value == [] {
        Close();
        return Fault(PeerClosed);
      }
    }

    /**
      Bounded reconnection: every attempt but the last failed, the last succeeded exactly when the
      call does, and failure means that all `maxAttempts` failed. Unless a doubling of the delay
      overflows, the sleeps between the attempts are those of the policy.
      */
    method Reconnect() returns (r: Io<()>, ghost attempts: nat, ghost overflowed: bool)
      modifies this, os
      requires Valid()
      ensures Valid()
      ensures Conserves(old(os.Snap()), old(Held()), os.Snap(), Held())
      ensures old(implementation).None? || old(implementation).value.endpoint.None?
              ==> r == Fault(NotConnected) && attempts == 0 && !overflowed && os.log == old(os.log)
      ensures old(implementation).Some? && old(implementation).value.endpoint.Some? ==>
                var policy := old(implementation).value.policy;
                var endpoint := old(implementation).value.endpoint.value;
                && policy.Valid()
                && 1 <= attempts <= policy.maxAttempts <= HARD_ATTEMPT_LIMIT
                && (r.Done? <==> Connected())
                && (r.Done? ==> IsConnectedFor(endpoint))
                && (r.Fault? ==> r.error == RetryLimitExceeded && attempts == policy.maxAttempts)
                && (overflowed <==> !FitsFor(policy, attempts))
                && (!overflowed ==> os.log == old(os.log) + AttemptLog(Remote(endpoint), policy, attempts, r.Done?))
    {
      hide Conserves, AttemptLog, FitsFor;
      ConservesNothing(os.Snap(), Held());
      if implementation.None? || implementation.value.endpoint.None? {
        return Fault(NotConnected), 0, false;
      }
      if implementation.value.policy.Valid() {
        r, attempts, overflowed := Retry(implementation.value.endpoint.value, implementation.value.policy);
      } else {
        assert false;
        r := Fault(InvalidArgument);
      }
    }

    // The attempts of a reconnection.
    method Retry(endpoint: Endpoint, policy: ReconnectPolicy)
      returns (r: Io<()>, ghost attempts: nat, ghost overflowed: bool)
      modifies this, os
      requires Valid() && Accepts(endpoint) && implementation.value.policy == policy
      ensures Valid()
      ensures Conserves(old(os.Snap()), old(Held()), os.Snap(), Held())
      ensures 1 <= attempts <= policy.maxAttempts
      ensures r.Done? <==> Connected()
      ensures r.Done? ==> IsConnectedFor(endpoint)
      ensures r.Fault? ==> r.error == RetryLimitExceeded && attempts == policy.maxAttempts
      ensures overflowed <==> !FitsFor(policy, attempts)
      ensures !overflowed ==> os.log == old(os.log) + AttemptLog(Remote(endpoint), policy, attempts, r.Done?)
    {
      hide Conserves, Tried, Refused, AttemptLog, AttemptOnce, DelayAt, FitsFor, IsConnectedFor, Waited;
      ConservesNothing(os.Snap(), Held());
      var delay: Tick := policy.initialDelay;
      var attempt := 0;
      overflowed := false;
      ghost var query := Remote(endpoint);
      FirstFits(policy);
      NextDelay(policy, 0);
      NothingYet(query, policy);
      while attempt < policy.maxAttempts
        invariant attempt <= policy.maxAttempts
        invariant Valid() && Accepts(endpoint) && implementation.value.policy == policy
        invariant attempt > 0 ==> !Connected()
        invariant Conserves(old(os.Snap()), old(Held()), os.Snap(), Held())
        invariant overflowed <==> !FitsFor(policy, Min(attempt + 1, policy.maxAttempts))
        invariant !overflowed && attempt < policy.maxAttempts ==> delay == DelayAt(policy, attempt)
        invariant !overflowed ==> os.log == old(os.log) + Waited(query, policy, attempt, attempt < policy.maxAttempts)
      {
        ghost var before, held := os.Snap(), Held();
        var result := Connect(endpoint);
        ConservesTransitive(old(os.Snap()), old(Held()), before, held, os.Snap(), Held());
        NextAttempt(query, policy, attempt, result.Done?, old(os.log));
        if result.Done? {
          return Done(()), attempt + 1, overflowed;
        }
        NextWait(query, policy, attempt + 1, attempt + 1 < policy.maxAttempts, old(os.log));
        delay, overflowed := Wait(os, policy, attempt, delay, overflowed);
        attempt := attempt + 1;
      }
      AllWaited(query, policy, attempt);
      return Fault(RetryLimitExceeded), attempt, overflowed;
    }
  }

  // What follows the failure of an attempt: unless it was the last, a sleep for a positive delay, and its double.
  method Wait(os: SocketLayer, policy: ReconnectPolicy, attempt: nat, delay: Tick, ghost overflowed: bool)
    returns (delay': Tick, ghost overflowed': bool)
    modifies os`log
    requires policy.Valid() && attempt < policy.maxAttempts
    requires overflowed <==> !FitsFor(policy, attempt + 1)
    requires !overflowed ==> delay == DelayAt(policy, attempt)
    ensures overflowed ==> overflowed'
    ensures overflowed' <==> !FitsFor(policy, Min(attempt + 2, policy.maxAttempts))
    ensures !overflowed' && attempt + 1 < policy.maxAttempts ==> delay' == DelayAt(policy, attempt + 1)
    ensures !overflowed' ==>
              os.log == old(os.log) + if attempt + 1 < policy.maxAttempts then Pause(policy, attempt) else []
  {
    hide FitsFor, DelayAt;
    NextDelay(policy, attempt);
    FitsForOneMore(policy, attempt + 1);
    delay', overflowed' := delay, overflowed;
    if attempt + 1 < policy.maxAttempts && delay > 0 {
      os.Sleep(delay);
      ghost var over;
      delay', over := Double(delay);
      overflowed' := overflowed || over;
      delay' := Min(delay', policy.maximumDelay);
    }
  }

  // The query of a listener for its own address.
  function Local(endpoint: Endpoint): (q: Query) {
    Query(endpoint, StreamSocket, true)
  }

  class TcpListener {
    const os: SocketLayer
    var implementation: Option<ListenerImpl>

    ghost function Held(): (r: set<Handle>)
      reads this
    {
      if implementation.Some? then HandlesOf(implementation.value.socket) else {}
    }

    ghost predicate Valid()
      reads this, os
    {
      os.Valid() && Held() <= os.open
    }

    predicate Listening()
      reads this
    {
      implementation.Some? && implementation.value.socket.Native?
    }

    constructor (os: SocketLayer, options: IoOptions)
      requires os.Valid()
      ensures Valid() && this.os == os && Held() == {}
      ensures implementation == Some(ListenerImpl(Invalid, options))
    {
      this.os := os;
      implementation := Some(ListenerImpl(Invalid, options));
    }

    method Close()
      modifies this, os`open, os`released
      requires Valid()
      ensures Valid() && Held() == {}
      ensures Conserves(old(os.Snap()), old(Held()), os.Snap(), Held())
      ensures os.open == old(os.open) - old(Held())
      ensures implementation == if old(implementation).None? then None
                                else Some(old(implementation).value.(socket := Invalid))
    {
      hide Conserves;
      ConservesNothing(os.Snap(), Held());
      if implementation.Some? {
        var socket := os.CloseSocket(implementation.value.socket);
        implementation := Some(implementation.value.(socket := socket));
      }
    }

    method MoveFrom(other: TcpListener)
      modifies this, other, os`open, os`released
      requires Valid() && other.Valid() && other.os == os
      requires this != other ==> Held() !! other.Held()
      ensures Valid() && other.Valid()
      ensures this == other ==> implementation == old(implementation) && os.Snap() == old(os.Snap())
      ensures this != other ==>
                && implementation == old(other.implementation)
                && other.implementation.None?
                && Conserves(old(os.Snap()), old(Held()), os.Snap(), {})
    {
      hide Conserves;
      if this != other {
        Close();
        implementation := other.implementation;
        other.implementation := None;
      }
    }

    // The listening socket was made for this address, then bound to it, then set listening.
    ghost predicate IsListeningOn(address: Address, backlog: int)
      reads this, os
    {
      && Listening()
      && implementation.value.socket.handle in os.sockets
      && os.sockets[implementation.value.socket.handle]
         == Record(address.family, [ReuseAddress, BindTo(address), Listen(backlog)], [])
    }

    // Listening on the address tried last, which name resolution gave for this endpoint.
    ghost predicate IsListeningFor(endpoint: Endpoint, backlog: int)
      reads this, os
    {
      && os.tries != []
      && var address := os.tries[|os.tries| - 1].address;
         Answer(Local(endpoint), address) in os.answers && IsListeningOn(address, backlog)
    }

    // The arguments and configuration that binding demands.
    predicate Accepts(endpoint: Endpoint, backlog: int)
      reads this
    {
      implementation.Some? && endpoint.Valid() && 0 < backlog <= 65535 && implementation.value.options.Valid()
    }

    /**
      Listens on the first address that can be established. Wrong arguments change nothing and ask
      nothing; otherwise there is one name query, and the listener listens exactly on success.
      */
    method Bind(endpoint: Endpoint, backlog: int) returns (r: Io<()>)
      modifies this, os`open, os`sockets, os`acquired, os`released
      modifies os`answers, os`log, os`lookups, os`tries, os`refusals
      requires Valid()
      ensures Valid()
      ensures Conserves(old(os.Snap()), old(Held()), os.Snap(), Held())
      ensures r == Fault(InvalidArgument) <==> !old(Accepts(endpoint, backlog))
      ensures !old(Accepts(endpoint, backlog)) ==>
                && implementation == old(implementation)
                && os.Snap() == old(os.Snap())
                && os.log == old(os.log)
                && os.lookups == old(os.lookups) && os.tries == old(os.tries) && os.refusals == old(os.refusals)
      ensures old(Accepts(endpoint, backlog)) ==>
                && implementation.Some?
                && implementation.value == old(implementation).value.(socket := implementation.value.socket)
                && (r.Done? <==> Listening())
                && os.log == old(os.log) + [Queried(Local(endpoint))]
                && Tried(old(os.lookups), os.lookups, old(os.tries), os.tries, Local(endpoint), r, BindFailed)
                && Refused(old(os.refusals), os.refusals, old(os.tries), os.tries)
      ensures r.Done? ==> IsListeningFor(endpoint, backlog)
    {
      hide Conserves, Tried, Refused;
      ConservesNothing(os.Snap(), Held());
      if implementation.None? {
        return Fault(InvalidArgument);
      }
      if !endpoint.Valid() || backlog <= 0 || backlog > 65535 || !implementation.value.options.Valid() {
        return Fault(InvalidArgument);
      }
      r := BindChecked(endpoint, backlog);
    }

    // Binding with arguments that were checked.
    method BindChecked(endpoint: Endpoint, backlog: int) returns (r: Io<()>)
      modifies this, os`open, os`sockets, os`acquired, os`released
      modifies os`answers, os`log, os`lookups, os`tries, os`refusals
      requires Valid() && Accepts(endpoint, backlog)
      ensures Valid() && implementation.Some?
      ensures Conserves(old(os.Snap()), old(Held()), os.Snap(), Held())
      ensures implementation.value == old(implementation).value.(socket := implementation.value.socket)
      ensures r.Done? <==> Listening()
      ensures r.Done? ==> IsListeningFor(endpoint, backlog)
      ensures r.Fault? ==> r.error != InvalidArgument
      ensures os.log == old(os.log) + [Queried(Local(endpoint))]
      ensures Tried(old(os.lookups), os.lookups, old(os.tries), os.tries, Local(endpoint), r, BindFailed)
      ensures Refused(old(os.refusals), os.refusals, old(os.tries), os.tries)
    {
      hide Conserves, Tried, Refused, SocketLayer.Valid, SocketLayer.Snap;
      Close();
      ghost var before := os.Snap();
      var socket, chosen := os.Reach(Local(endpoint), a => [ReuseAddress, BindTo(a), Listen(backlog)], BindFailed);
      ghost var held := if socket.Done? then HandlesOf(socket.value) else {};
      ConservesTransitive(old(os.Snap()), old(Held()), before, {}, os.Snap(), held);
      r := if socket.Done? then Done(()) else Fault(socket.error);
      TriedAs(old(os.lookups), os.lookups, old(os.tries), os.tries, Local(endpoint), socket, r, BindFailed);
      if socket.Fault? {
        return;
      }
      implementation := Some(implementation.value.(socket := socket.value));
      assert Answer(Local(endpoint), chosen) in os.answers && IsListeningOn(chosen, backlog);
    }

    /** The accepted connection belongs to the new stream alone; the listener keeps its own handle. */
    method Accept() returns (r: Io<TcpStream>)
      modifies os`open, os`sockets, os`acquired, os`released, os`refusals
      requires Valid()
      ensures Valid()
      ensures !Listening() ==> r == Fault(NotConnected) && os.refusals == old(os.refusals)
      ensures Listening() ==> os.refusals == old(os.refusals) + if r.Done? then [] else [r.error]
      ensures r.Done? ==> fresh(r.value) && r.value.os == os && r.value.Valid() && r.value.Connected()
      ensures r.Done? ==> os.sockets[r.value.Handle()].history == [Configure(implementation.value.options)]
      ensures r.Done? ==>
                && r.value.implementation.value
                   == StreamImpl(Native(r.value.Handle()), implementation.value.options, DEFAULT_POLICY, None)
      ensures Conserves(old(os.Snap()), {}, os.Snap(), if r.Done? then r.value.Held() else {})
    {
      hide Conserves;
      ConservesNothing(os.Snap(), {});
      if !Listening() {
        return Fault(NotConnected);
      }
      var options := implementation.value.options;
      var peerFamily: int := *;
      var accepted := os.Prepare(peerFamily, AcceptFailed, [Configure(options)]);
      OthersStayOpen(
        old(os.Snap()), {}, os.Snap(), if accepted.Done? then HandlesOf(accepted.value) else {}, Held());
      if accepted.Fault? {
        return Fault(accepted.error);
      }
      var stream := new TcpStream.Accepted(os, accepted.value, options);
      return Done(stream);
    }
  }
}
