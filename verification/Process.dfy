/**
  A process with any number of live TCP streams, listeners and UDP sockets. Whatever call it makes on
  any of them, all objects together take one of the steps of `Ownership`.
  */
module Process {
  import opened Words
  import opened Sockets
  import opened Backoff
  import opened Tcp
  import opened Udp
  import opened Ownership

  datatype Transport = Stream(stream: TcpStream) | Listener(listener: TcpListener) | Socket(socket: UdpSocket)

  ghost function Ref(t: Transport): (r: object) {
    match t
    case Stream(s) => s
    case Listener(l) => l
    case Socket(u) => u
  }

  ghost function HeldOf(t: Transport): (r: set<Handle>)
    reads Ref(t)
  {
    match t
    case Stream(s) => s.Held()
    case Listener(l) => l.Held()
    case Socket(u) => u.Held()
  }

  // An object's own part of its class invariant, when the socket layer is in state s.
  ghost predicate Sane(t: Transport, os: SocketLayer, s: Snapshot)
    reads Ref(t)
  {
    match t
    case Stream(stream) =>
      stream.os == os && (stream.implementation.Some? ==> Remembers(stream.implementation.value))
    case Listener(listener) => listener.os == os
    case Socket(socket) =>
      socket.os == os && (socket.implementation.Some? ==> Sound(socket.implementation.value, s))
  }

  datatype Kind = StreamKind | ListenerKind | SocketKind

  datatype Call =
    | Connect(endpoint: Endpoint) | Reconnect | Send(bytes: Bytes) | SendAll(bytes: Bytes) | Receive(capacity: nat)
    | Bind(endpoint: Endpoint, backlog: int) | SendTo(endpoint: Endpoint, bytes: Bytes) | Close

  // The calls of each class; a call that a class does not have does nothing.
  method PerformStream(stream: TcpStream, call: Call)
    modifies stream, stream.os
    requires stream.Valid()
    ensures stream.Valid()
    ensures Conserves(old(stream.os.Snap()), old(stream.Held()), stream.os.Snap(), stream.Held())
  {
    hide Conserves;
    ConservesNothing(stream.os.Snap(), stream.Held());
    match call {
      case Connect(endpoint) => var _ := stream.Connect(endpoint);
      case Reconnect => var _, _, _ := stream.Reconnect();
      case Send(bytes) => var _ := stream.Send(bytes);
      case SendAll(bytes) => var _, _ := stream.SendAll(bytes);
      case Receive(capacity) => var _ := stream.Receive(capacity);
      case Close => stream.Close();
      case _ =>
    }
  }

  method PerformListener(listener: TcpListener, call: Call)
    modifies listener, listener.os
    requires listener.Valid()
    ensures Conserves(old(listener.os.Snap()), old(listener.Held()), listener.os.Snap(), listener.Held())
  {
    hide Conserves;
    ConservesNothing(listener.os.Snap(), listener.Held());
    match call {
      case Bind(endpoint, backlog) => var _ := listener.Bind(endpoint, backlog);
      case Close => listener.Close();
      case _ =>
    }
  }

  method PerformSocket(socket: UdpSocket, call: Call)
    modifies socket, socket.os
    requires socket.Valid()
    ensures socket.Valid()
    ensures Conserves(old(socket.os.Snap()), old(socket.Held()), socket.os.Snap(), socket.Held())
  {
    hide Conserves;
    ConservesNothing(socket.os.Snap(), socket.Held());
    match call {
      case Bind(endpoint, _) => var _ := socket.Bind(endpoint);
      case SendTo(endpoint, bytes) => var _ := socket.SendTo(endpoint, bytes);
      case Close => socket.Close();
      case _ =>
    }
  }

  method Make(os: SocketLayer, kind: Kind, options: IoOptions, policy: ReconnectPolicy) returns (t: Transport)
    requires os.Valid() && AllSafe(os.Snap())
    ensures fresh(Ref(t)) && Sane(t, os, os.Snap()) && HeldOf(t) == {}
  {
    match kind {
      case StreamKind =>
        var stream := new TcpStream(os, options, policy);
        t := Stream(stream);
      case ListenerKind =>
        var listener := new TcpListener(os, options);
        t := Listener(listener);
      case SocketKind =>
        var socket := new UdpSocket(os, options);
        t := Socket(socket);
    }
  }

  predicate SameKind(a: Transport, b: Transport) {
    (a.Stream? && b.Stream?) || (a.Listener? && b.Listener?) || (a.Socket? && b.Socket?)
  }

  // The object invariant as the classes state it.
  ghost predicate ClassValid(t: Transport, os: SocketLayer)
    reads Ref(t), os
  {
    Sane(t, os, os.Snap()) && os.Valid() && HeldOf(t) <= os.open && AllSafe(os.Snap())
  }

  method MoveTransport(to: Transport, from: Transport, os: SocketLayer)
    modifies Ref(to), Ref(from), os
    requires SameKind(to, from) && ClassValid(to, os) && ClassValid(from, os)
    requires to != from ==> HeldOf(to) !! HeldOf(from)
    ensures Sane(to, os, os.Snap()) && Sane(from, os, os.Snap())
    ensures to == from ==> os.Snap() == old(os.Snap()) && HeldOf(to) == old(HeldOf(to))
    ensures to != from ==> HeldOf(to) == old(HeldOf(from)) && HeldOf(from) == {}
    ensures to != from ==> Conserves(old(os.Snap()), old(HeldOf(to)), os.Snap(), {})
  {
    hide Conserves;
    match to {
      case Stream(stream) => stream.MoveFrom(from.stream);
      case Listener(listener) => listener.MoveFrom(from.listener);
      case Socket(socket) => socket.MoveFrom(from.socket);
    }
  }

  method CloseTransport(t: Transport, os: SocketLayer)
    modifies Ref(t), os
    requires ClassValid(t, os)
    ensures Sane(t, os, os.Snap()) && HeldOf(t) == {}
    ensures Conserves(old(os.Snap()), old(HeldOf(t)), os.Snap(), {})
  {
    hide Conserves;
    match t {
      case Stream(stream) => stream.Close();
      case Listener(listener) => listener.Close();
      case Socket(socket) => socket.Close();
    }
  }

  method PerformTransport(t: Transport, os: SocketLayer, call: Call)
    modifies Ref(t), os
    requires ClassValid(t, os)
    ensures Sane(t, os, os.Snap())
    ensures Conserves(old(os.Snap()), old(HeldOf(t)), os.Snap(), HeldOf(t))
  {
    hide Conserves;
    match t {
      case Stream(stream) => PerformStream(stream, call);
      case Listener(listener) => PerformListener(listener, call);
      case Socket(socket) => PerformSocket(socket, call);
    }
  }

  // ---------- Tables of objects ----------

  type Table = map<Id, Transport>

  ghost function Refs(objects: Table): (r: set<object>) {
    set id | id in objects :: Ref(objects[id])
  }

  ghost function Holdings(objects: Table): (r: map<Id, set<Handle>>)
    reads Refs(objects)
    ensures r.Keys == objects.Keys
  {
    map id | id in objects :: HeldOf(objects[id])
  }

  // Every entry is sane, and no object is entered twice.
  ghost predicate Tidy(objects: Table, os: SocketLayer, s: Snapshot)
    reads Refs(objects)
  {
    && (forall id :: id in objects ==> Sane(objects[id], os, s))
    && (forall id, other :: id in objects && other in objects && id != other ==>
          Ref(objects[id]) != Ref(objects[other]))
  }

  lemma OnlyTransports(objects: Table, os: SocketLayer, process: Process)
    ensures os !in Refs(objects) && process !in Refs(objects)
  {
  }

  lemma WithOne(objects: Table, os: SocketLayer, s: Snapshot, id: Id, t: Transport)
    requires Tidy(objects, os, s) && id !in objects && Sane(t, os, s) && Ref(t) !in Refs(objects)
    ensures Tidy(objects[id := t], os, s)
    ensures Holdings(objects[id := t]) == Holdings(objects)[id := HeldOf(t)]
  {
    hide HeldOf, Sane, Ref;
    assert forall other :: other in objects ==> Ref(objects[other]) in Refs(objects);
  }

  lemma RefsWithOne(objects: Table, id: Id, t: Transport)
    ensures Refs(objects[id := t]) <= Refs(objects) + {Ref(t)}
  {
  }

  lemma WithoutOne(objects: Table, os: SocketLayer, s: Snapshot, id: Id)
    requires Tidy(objects, os, s) && id in objects
    ensures Tidy(objects - {id}, os, s) && Sane(objects[id], os, s)
    ensures Ref(objects[id]) in Refs(objects) && Ref(objects[id]) !in Refs(objects - {id})
    ensures Refs(objects - {id}) <= Refs(objects)
    ensures Holdings(objects - {id}) == Holdings(objects) - {id}
    ensures Holdings(objects)[id] == HeldOf(objects[id])
  {
    hide HeldOf, Sane, Ref;
    var fewer := objects - {id};
    assert forall other :: other in fewer ==> fewer[other] == objects[other] && Ref(objects[other]) in Refs(objects);
    assert Ref(objects[id]) in Refs(objects);
  }

  // A step of someone else leaves these objects sane.
  lemma TidyStays(objects: Table, os: SocketLayer, s: Snapshot, held: set<Handle>, s': Snapshot, held': set<Handle>)
    requires Tidy(objects, os, s) && Conserves(s, held, s', held')
    requires forall id :: id in objects ==> Holdings(objects)[id] !! held
    ensures Tidy(objects, os, s')
  {
    hide Conserves, Sound;
    forall id | id in objects
      ensures Sane(objects[id], os, s')
    {
      assert Holdings(objects)[id] == HeldOf(objects[id]);
      if objects[id].Socket? && objects[id].socket.implementation.Some? {
        SoundForever(objects[id].socket.implementation.value, s, held, s', held');
      }
    }
  }

  // ---------- Parts of the ownership invariant ----------

  // An operation that leaves no new handle behind is conservative for any holder.
  lemma HoldsAnyway(s: Snapshot, s': Snapshot, held: set<Handle>)
    requires Conserves(s, {}, s', {}) && held <= s.open
    ensures Conserves(s, held, s', held)
  {
  }

  lemma LayerOf(w: World)
    requires Owned(w)
    ensures w.layer.Balanced()
  {
  }

  lemma OwnPart(w: World, id: Id)
    requires Owned(w) && id in w.held
    ensures w.layer.Balanced() && w.held[id] <= w.layer.open
    ensures forall other :: other in w.held && other != id ==> w.held[other] !! w.held[id]
  {
  }

  lemma SafeAfter(s: Snapshot, held: set<Handle>, s': Snapshot, held': set<Handle>)
    requires Conserves(s, held, s', held') && AllSafe(s)
    ensures AllSafe(s')
  {
  }

  // ---------- Programs ----------

  datatype Command =
    | Construct(id: Id, kind: Kind, options: IoOptions, policy: ReconnectPolicy)
    | Invoke(id: Id, call: Call)
    | AcceptFrom(id: Id, newId: Id)
    | Assign(from: Id, to: Id)
    | Discard(id: Id)

  // A command that names the wrong objects does nothing.
  predicate Applicable(objects: Table, command: Command) {
    match command
    case Construct(id, _, _, _) => id !in objects
    case Invoke(id, _) => id in objects
    case AcceptFrom(id, newId) => id in objects && objects[id].Listener? && newId !in objects
    case Assign(from, to) => from in objects && to in objects && SameKind(objects[from], objects[to])
    case Discard(id) => id in objects
  }

  // What a command that applies does to the world.
  ghost predicate Performs(command: Command, w: World, w': World) {
    match command
    case Construct(id, _, _, _) => Next(w, Action.Create(id), w')
    case Invoke(id, _) => Next(w, Operate(id), w')
    case AcceptFrom(id, newId) =>
      || Next(w, Operate(id), w')
      || var between := w.(held := w.held[newId := {}]);
         Next(w, Action.Create(newId), between) && Next(between, Operate(newId), w')
    case Assign(from, to) => Next(w, Action.Move(from, to), w')
    case Discard(id) => Next(w, Action.Destroy(id), w')
  }

  // One step forgets or adds entries but never redirects one.
  predicate Kept(objects: Table, objects': Table) {
    forall id :: id in objects && id in objects' ==> objects[id] == objects'[id]
  }

  // The worlds and tables before, between and after the commands of a program.
  ghost predicate Played(program: seq<Command>, marks: seq<World>, tables: seq<Table>) {
    && |marks| == |tables| == |program| + 1
    && (forall i :: 0 <= i < |marks| ==> marks[i].held.Keys == tables[i].Keys)
    && forall i :: 0 <= i < |program| ==>
         && Kept(tables[i], tables[i + 1])
         && if Applicable(tables[i], program[i]) then Performs(program[i], marks[i], marks[i + 1])
            else marks[i + 1] == marks[i]
  }

  lemma NothingPlayed(w: World, objects: Table)
    requires w.held.Keys == objects.Keys
    ensures Played([], [w], [objects]) && Leads(w, [w], [], w)
  {
  }

  lemma PlayedOn(
    program: seq<Command>, i: nat, marks: seq<World>, tables: seq<Table>, world: World, table: Table)
    requires i < |program| && Played(program[..i], marks, tables)
    requires world.held.Keys == table.Keys && Kept(tables[i], table)
    requires if Applicable(tables[i], program[i]) then Performs(program[i], marks[i], world) else world == marks[i]
    ensures Played(program[..i + 1], marks + [world], tables + [table])
  {
    hide Applicable, Performs, Kept;
  }

  lemma LeadsOverCommand(w: World, worlds: seq<World>, actions: seq<Action>, w': World, command: Command, w'': World)
    returns (worlds': seq<World>, actions': seq<Action>)
    requires Leads(w, worlds, actions, w') && Performs(command, w', w'')
    ensures Leads(w, worlds', actions', w'') && actions < actions'
  {
    hide Leads, Next;
    var action :=
      match command
      case Construct(id, _, _, _) => Action.Create(id)
      case Invoke(id, _) => Operate(id)
      case AcceptFrom(id, _) => Operate(id)
      case Assign(from, to) => Action.Move(from, to)
      case Discard(id) => Action.Destroy(id);
    if Next(w', action, w'') {
      LeadsOn(w, worlds, actions, w', action, w'');
      worlds', actions' := worlds + [w''], actions + [action];
    } else {
      var newId := command.newId;
      var between := w'.(held := w'.held[newId := {}]);
      LeadsOn(w, worlds, actions, w', Action.Create(newId), between);
      LeadsOn(w, worlds + [between], actions + [Action.Create(newId)], between, Operate(newId), w'');
      worlds', actions' := worlds + [between] + [w''], actions + [Action.Create(newId)] + [Operate(newId)];
    }
  }

  class Process {
    const os: SocketLayer
    var objects: Table

    ghost function Now(): (w: World)
      reads this, os, Refs(objects)
      ensures w.held.Keys == objects.Keys
    {
      World(os.Snap(), Holdings(objects))
    }

    ghost predicate Valid()
      reads this, os, Refs(objects)
    {
      Tidy(objects, os, os.Snap()) && Owned(Now()) && AllSafe(os.Snap())
    }

    constructor (os: SocketLayer)
      requires os.Valid() && os.open == {} && AllSafe(os.Snap())
      ensures Valid() && this.os == os && objects == map[]
    {
      this.os := os;
      objects := map[];
    }

    // One object operated; the others are as they were.
    lemma Operated(before: World, id: Id)
      requires Owned(before) && AllSafe(before.layer) && id in before.held && id in objects
      requires Holdings(objects - {id}) == before.held - {id}
      requires Tidy(objects - {id}, os, before.layer) && Ref(objects[id]) !in Refs(objects - {id})
      requires Sane(objects[id], os, os.Snap())
      requires Conserves(before.layer, before.held[id], os.Snap(), HeldOf(objects[id]))
      ensures Valid() && Next(before, Operate(id), Now())
    {
      hide Conserves, Owned, AllSafe, Sane, HeldOf, Ref, Holdings, Tidy;
      var others, t := objects - {id}, objects[id];
      OwnPart(before, id);
      TidyStays(others, os, before.layer, before.held[id], os.Snap(), HeldOf(t));
      WithOne(others, os, os.Snap(), id, t);
      assert others[id := t] == objects;
      assert Now().held == before.held[id := HeldOf(t)];
      OperateKeepsOwnership(before, id, Now());
      SafeAfter(before.layer, before.held[id], os.Snap(), HeldOf(t));
    }

    /** Any call on any live object is one ownership step of the whole process. */
    method Perform(id: Id, call: Call)
      modifies os, Ref(objects[id])
      requires Valid() && id in objects
      ensures Valid() && Next(old(Now()), Operate(id), Now())
    {
      hide Conserves, Owned, AllSafe, Sane, HeldOf, Holdings, Tidy;
      ghost var before := Now();
      WithoutOne(objects, os, os.Snap(), id);
      OnlyTransports(objects, os, this);
      OnlyTransports(objects - {id}, os, this);
      OwnPart(before, id);
      PerformTransport(objects[id], os, call);
      Operated(before, id);
    }

    // Construction adds an object that holds nothing.
    method Create(id: Id, kind: Kind, options: IoOptions, policy: ReconnectPolicy)
      modifies this
      requires Valid() && id !in objects
      ensures Valid() && Next(old(Now()), Action.Create(id), Now())
      ensures fresh(Refs(objects) - old(Refs(objects)))
      ensures Kept(old(objects), objects)
    {
      hide Conserves, Owned, AllSafe, Sane, HeldOf, Holdings, Tidy;
      ghost var before := Now();
      LayerOf(before);
      OnlyTransports(objects, os, this);
      var created := Make(os, kind, options, policy);
      ghost var others := objects;
      objects := objects[id := created];
      WithOne(others, os, os.Snap(), id, created);
      RefsWithOne(others, id, created);
      CreateKeepsOwnership(before, id, Now());
    }

    /** Accepting is the creation of a stream followed by a step of it; a failed accept keeps every handle. */
    method Accept(id: Id, newId: Id) returns (accepted: bool)
      modifies this, os
      requires Valid() && id in objects && objects[id].Listener? && newId !in objects
      ensures Valid()
      ensures fresh(Refs(objects) - old(Refs(objects)))
      ensures !accepted ==> Next(old(Now()), Operate(id), Now())
      ensures accepted ==>
                var between := old(Now()).(held := old(Now()).held[newId := {}]);
                Next(old(Now()), Action.Create(newId), between) && Next(between, Operate(newId), Now())
      ensures Kept(old(objects), objects)
    {
      hide Conserves, Owned, AllSafe, Sane, HeldOf, Holdings, Tidy;
      ghost var before, others := Now(), objects;
      OnlyTransports(objects, os, this);
      var r := TryAccept(id);
      accepted := r.Done?;
      if r.Fault? {
        NotAccepted(before, id);
        return;
      }
      objects := objects[newId := r.value];
      RefsWithOne(others, newId, r.value);
      Entered(before, others, newId, r.value);
    }

    // The connection, in a stream of its own.
    method TryAccept(id: Id) returns (r: Io<Transport>)
      modifies os
      requires Valid() && id in objects && objects[id].Listener?
      ensures r.Done? ==> fresh(Ref(r.value)) && Sane(r.value, os, os.Snap())
      ensures Conserves(old(os.Snap()), {}, os.Snap(), if r.Done? then HeldOf(r.value) else {})
    {
      hide Conserves, Owned, AllSafe, Holdings;
      OwnPart(Now(), id);
      WithoutOne(objects, os, os.Snap(), id);
      var stream := objects[id].listener.Accept();
      r := if stream.Done? then Done(Stream(stream.value)) else Fault(stream.error);
    }

    lemma NotAccepted(before: World, id: Id)
      requires Owned(before) && AllSafe(before.layer) && id in before.held
      requires Holdings(objects) == before.held && Tidy(objects, os, before.layer)
      requires Conserves(before.layer, {}, os.Snap(), {})
      ensures Valid() && Next(before, Operate(id), Now())
    {
      hide Conserves, Owned, AllSafe, Sane, HeldOf, Holdings, Tidy;
      SafeAfter(before.layer, {}, os.Snap(), {});
      TidyStays(objects, os, before.layer, {}, os.Snap(), {});
      OwnPart(before, id);
      HoldsAnyway(before.layer, os.Snap(), before.held[id]);
      assert before.held[id := before.held[id]] == before.held;
      OperateKeepsOwnership(before, id, Now());
    }

    lemma Entered(before: World, others: Table, id: Id, t: Transport)
      requires Owned(before) && AllSafe(before.layer) && id !in others && objects == others[id := t]
      requires Holdings(others) == before.held && Tidy(others, os, before.layer)
      requires Ref(t) !in Refs(others) && Sane(t, os, os.Snap())
      requires Conserves(before.layer, {}, os.Snap(), HeldOf(t))
      ensures Valid()
      ensures var between := before.(held := before.held[id := {}]);
              Next(before, Action.Create(id), between) && Next(between, Operate(id), Now())
    {
      hide Conserves, Owned, AllSafe, Sane, HeldOf, Ref, Holdings, Tidy;
      SafeAfter(before.layer, {}, os.Snap(), HeldOf(t));
      TidyStays(others, os, before.layer, {}, os.Snap(), HeldOf(t));
      WithOne(others, os, os.Snap(), id, t);
      var between := before.(held := before.held[id := {}]);
      assert Now().held == between.held[id := HeldOf(t)];
      CreateKeepsOwnership(before, id, between);
      OperateKeepsOwnership(between, id, Now());
    }

    method MoveSelf(id: Id)
      modifies os, Ref(objects[id])
      requires Valid() && id in objects
      ensures Valid() && Now() == old(Now())
    {
      hide Conserves, Owned, AllSafe, Sane, HeldOf, Holdings, Tidy;
      ghost var before := Now();
      WithoutOne(objects, os, os.Snap(), id);
      OnlyTransports(objects, os, this);
      OnlyTransports(objects - {id}, os, this);
      OwnPart(before, id);
      MoveTransport(objects[id], objects[id], os);
      WithOne(objects - {id}, os, os.Snap(), id, objects[id]);
      assert (objects - {id})[id := objects[id]] == objects;
      assert Now().held == before.held;
    }

    method MoveDistinct(from: Id, to: Id)
      modifies os, Ref(objects[from]), Ref(objects[to])
      requires Valid() && from in objects && to in objects && from != to && SameKind(objects[from], objects[to])
      ensures Valid() && Next(old(Now()), Action.Move(from, to), Now())
    {
      hide Conserves, Owned, AllSafe, Sane, HeldOf, Holdings, Tidy;
      ghost var before := Now();
      ghost var fewer := objects - {to};
      ghost var others := fewer - {from};
      WithoutOne(objects, os, os.Snap(), to);
      WithoutOne(fewer, os, os.Snap(), from);
      OnlyTransports(objects, os, this);
      OnlyTransports(others, os, this);
      OwnPart(before, from);
      OwnPart(before, to);
      MoveTransport(objects[to], objects[from], os);
      Moved(before, others, from, to);
    }

    lemma Moved(before: World, others: Table, from: Id, to: Id)
      requires Owned(before) && AllSafe(before.layer) && from in before.held && to in before.held && from != to
      requires from in objects && to in objects && others == objects - {to} - {from}
      requires Holdings(others) == before.held - {to} - {from}
      requires Tidy(others, os, before.layer)
      requires Ref(objects[to]) !in Refs(others) && Ref(objects[from]) !in Refs(others)
      requires Ref(objects[to]) != Ref(objects[from])
      requires Sane(objects[to], os, os.Snap()) && Sane(objects[from], os, os.Snap())
      requires HeldOf(objects[to]) == before.held[from] && HeldOf(objects[from]) == {}
      requires Conserves(before.layer, before.held[to], os.Snap(), {})
      ensures Valid() && Next(before, Action.Move(from, to), Now())
    {
      hide Conserves, Owned, AllSafe, Sane, HeldOf, Ref, Holdings, Tidy;
      OwnPart(before, to);
      TidyStays(others, os, before.layer, before.held[to], os.Snap(), {});
      WithOne(others, os, os.Snap(), from, objects[from]);
      RefsWithOne(others, from, objects[from]);
      WithOne(others[from := objects[from]], os, os.Snap(), to, objects[to]);
      assert others[from := objects[from]][to := objects[to]] == objects;
      assert Now().held == before.held[to := before.held[from]][from := {}];
      MoveKeepsOwnership(before, from, to, Now());
      SafeAfter(before.layer, before.held[to], os.Snap(), {});
    }

    /** Move assignment between two objects of a kind. */
    method MoveAssign(from: Id, to: Id)
      modifies os, Ref(objects[from]), Ref(objects[to])
      requires Valid() && from in objects && to in objects && SameKind(objects[from], objects[to])
      ensures Valid() && Next(old(Now()), Action.Move(from, to), Now())
    {
      if from == to {
        MoveSelf(to);
      } else {
        MoveDistinct(from, to);
      }
    }

    /** Destruction closes what the object holds and forgets the object. */
    method Destroy(id: Id)
      modifies this, os, Ref(objects[id])
      requires Valid() && id in objects
      ensures Valid() && Next(old(Now()), Action.Destroy(id), Now())
      ensures Refs(objects) <= old(Refs(objects))
      ensures Kept(old(objects), objects)
    {
      hide Conserves, Owned, AllSafe, Sane, HeldOf, Holdings, Tidy;
      ghost var before := Now();
      ghost var others := objects - {id};
      WithoutOne(objects, os, os.Snap(), id);
      OnlyTransports(objects, os, this);
      OnlyTransports(others, os, this);
      OwnPart(before, id);
      CloseTransport(objects[id], os);
      TidyStays(others, os, before.layer, before.held[id], os.Snap(), {});
      SafeAfter(before.layer, before.held[id], os.Snap(), {});
      objects := objects - {id};
      DestroyKeepsOwnership(before, id, Now());
    }

    method Execute(command: Command)
      modifies this, os, Refs(objects)
      requires Valid()
      ensures Valid() && fresh(Refs(objects) - old(Refs(objects)))
      ensures Kept(old(objects), objects)
      ensures if old(Applicable(objects, command)) then Performs(command, old(Now()), Now()) else Now() == old(Now())
    {
      hide Valid, Now, Next;
      if Applicable(objects, command) {
        match command {
          case Construct(id, kind, options, policy) => Create(id, kind, options, policy);
          case Invoke(id, call) => Perform(id, call);
          case AcceptFrom(id, newId) => var _ := Accept(id, newId);
          case Assign(from, to) => MoveAssign(from, to);
          case Discard(id) => Destroy(id);
        }
      }
    }

    // Executes the next command of a program and carries the record of the run along.
    method Advance(
      program: seq<Command>, i: nat, ghost marks: seq<World>, ghost tables: seq<Table>, ghost worlds: seq<World>,
      ghost actions: seq<Action>)
      returns (
        ghost marks': seq<World>, ghost tables': seq<Table>, ghost worlds': seq<World>, ghost actions': seq<Action>)
      modifies this, os, Refs(objects)
      requires Valid() && i < |program|
      requires |marks| == |tables| == i + 1 && Played(program[..i], marks, tables)
      requires marks[i] == Now() && tables[i] == objects && Leads(marks[0], worlds, actions, Now())
      ensures Valid() && fresh(Refs(objects) - old(Refs(objects)))
      ensures marks' == marks + [Now()] && tables' == tables + [objects] && Played(program[..i + 1], marks', tables')
      ensures Leads(marks[0], worlds', actions', Now())
    {
      hide Valid, Now, Next, Performs, Applicable, Kept, Played, Leads;
      ghost var before, table := Now(), objects;
      Execute(program[i]);
      worlds', actions' := worlds, actions;
      if Applicable(table, program[i]) {
        worlds', actions' := LeadsOverCommand(marks[0], worlds, actions, before, program[i], Now());
      }
      PlayedOn(program, i, marks, tables, Now(), objects);
      marks', tables' := marks + [Now()], tables + [objects];
    }

    /**
      Any program over any number of objects is a run of ownership steps: every command that applies
      is performed, in order, and afterwards the open handles are exactly those of the live objects,
      each held by one, and no datagram has been misdirected.
      */
    method Run(program: seq<Command>)
      returns (ghost marks: seq<World>, ghost tables: seq<Table>, ghost worlds: seq<World>, ghost actions: seq<Action>)
      modifies this, os, Refs(objects)
      requires Valid()
      ensures Valid() && Owned(Now()) && AllSafe(os.Snap())
      ensures |marks| == |tables| == |program| + 1 && Played(program, marks, tables)
      ensures marks[0] == old(Now()) && marks[|program|] == Now()
      ensures tables[0] == old(objects) && tables[|program|] == objects
      ensures Leads(old(Now()), worlds, actions, Now())
    {
      hide Now, Tidy, Owned, AllSafe, Played, Leads;
      NothingPlayed(Now(), objects);
      assert program[..0] == [];
      marks, tables, worlds, actions := [Now()], [objects], [Now()], [];
      ghost var start := Now();
      for i := 0 to |program|
        invariant Valid() && fresh(Refs(objects) - old(Refs(objects)))
        invariant |marks| == |tables| == i + 1 && Played(program[..i], marks, tables)
        invariant marks[0] == start && marks[i] == Now()
        invariant tables[0] == old(objects) && tables[i] == objects
        invariant Leads(start, worlds, actions, Now())
      {
        ghost var refs := Refs(objects);
        marks, tables, worlds, actions := Advance(program, i, marks, tables, worlds, actions);
        assert Refs(objects) - old(Refs(objects)) <= (Refs(objects) - refs) + (refs - old(Refs(objects)));
      }
      assert program[..|program|] == program;
    }
  }

  /**
    A program's whole life, from a socket layer without sockets: each handle was closed exactly as
    often as it was opened, once less while some object holds it; when no object is left, no handle is.
    */
  method Lifetime(os: SocketLayer, program: seq<Command>) returns (process: Process)
    modifies os
    requires os.Snap() == EMPTY.layer
    ensures process.os == os && process.Valid() && AllSafe(os.Snap())
    ensures var held := process.Now().held;
            forall h :: os.acquired[h] == os.released[h] + if exists id :: id in held && h in held[id] then 1 else 0
    ensures process.objects == map[] ==> os.open == {}
  {
    hide Owned, AllSafe, Next;
    process := new Process(os);
    ghost var start := process.Now();
    assert start == EMPTY;
    ghost var _, _, worlds, actions := process.Run(program);
    ghost var now := process.Now();
    forall h
      ensures now.layer.acquired[h]
           == now.layer.released[h] + if exists id :: id in now.held && h in now.held[id] then 1 else 0
    {
      NoLeakNoDoubleClose(worlds, actions, |actions|, h);
    }
    NoLeakNoDoubleClose(worlds, actions, |actions|, 0);
    assert process.objects == map[] ==> now.held.Keys == {};
  }
}
