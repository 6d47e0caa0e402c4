/**
  Handle conservation over whole runs. A world is the socket layer together with the handles each
  live transport object holds; the actions are what the classes of Tcp and Udp are proved to do.
  */
module Ownership {
  import opened Sockets

  type Id = nat
  datatype World = World(layer: Snapshot, held: map<Id, set<Handle>>)

  // The open handles are exactly those held by live objects, and no two objects share one.
  ghost predicate Owned(w: World) {
    && w.layer.Balanced()
    && (forall id :: id in w.held ==> w.held[id] <= w.layer.open)
    && (forall id, other :: id in w.held && other in w.held && id != other ==> w.held[id] !! w.held[other])
    && (forall h :: h in w.layer.open ==> exists id :: id in w.held && h in w.held[id])
  }

  datatype Action =
    | Create(id: Id)           // construction, and the first half of accept and move construction
    | Operate(id: Id)          // connect, reconnect, bind, accept into id, send, receive, close
    | Move(from: Id, to: Id)   // move assignment
    | Destroy(id: Id)

  ghost predicate Next(w: World, action: Action, w': World) {
    match action
    case Create(id) =>
      && id !in w.held
      && w' == w.(held := w.held[id := {}])
    case Operate(id) =>
      && id in w.held && id in w'.held
      && w'.held == w.held[id := w'.held[id]]
      && Conserves(w.layer, w.held[id], w'.layer, w'.held[id])
    case Move(from, to) =>
      && from in w.held && to in w.held
      && (from == to ==> w' == w)
      && (from != to ==>
            && w'.held == w.held[to := w.held[from]][from := {}]
            && Conserves(w.layer, w.held[to], w'.layer, {}))
    case Destroy(id) =>
      && id in w.held
      && w'.held == w.held - {id}
      && Conserves(w.layer, w.held[id], w'.layer, {})
  }

  ghost predicate IsRun(worlds: seq<World>, actions: seq<Action>) {
    && |worlds| == |actions| + 1
    && forall i :: 0 <= i < |actions| ==> Next(worlds[i], actions[i], worlds[i + 1])
  }

  // A run from one world to another.
  ghost predicate Leads(w: World, worlds: seq<World>, actions: seq<Action>, w': World) {
    IsRun(worlds, actions) && worlds[0] == w && worlds[|actions|] == w'
  }

  lemma LeadsOn(w: World, worlds: seq<World>, actions: seq<Action>, w': World, action: Action, w'': World)
    requires Leads(w, worlds, actions, w') && Next(w', action, w'')
    ensures Leads(w, worlds + [w''], actions + [action], w'')
  {
    hide Next;
  }

  // After a step of id, the other objects still hold open handles and share none with id.
  lemma OthersUntouched(w: World, id: Id, s': Snapshot, held': set<Handle>)
    requires Owned(w) && id in w.held && Conserves(w.layer, w.held[id], s', held')
    ensures forall other :: other in w.held && other != id ==> w.held[other] <= s'.open && w.held[other] !! held'
    ensures forall h :: h in s'.open && h !in held' ==>
              exists other :: other in w.held && other != id && h in w.held[other]
  {
    forall other | other in w.held && other != id
      ensures w.held[other] <= s'.open && w.held[other] !! held'
    {
      assert forall h :: h in w.held[other] ==> h in w.layer.open - w.held[id];
      assert forall h :: h in w.held[other] ==> h in s'.open - held';
    }
    forall h | h in s'.open && h !in held'
      ensures exists other :: other in w.held && other != id && h in w.held[other]
    {
      assert h in s'.open - held';
      assert h in w.layer.open && h !in w.held[id];
    }
  }

  lemma OperateKeepsOwnership(w: World, id: Id, w': World)
    requires Owned(w) && Next(w, Operate(id), w')
    ensures Owned(w')
  {
    OthersUntouched(w, id, w'.layer, w'.held[id]);
    forall h | h in w'.layer.open
      ensures exists other :: other in w'.held && h in w'.held[other]
    {
      if h in w'.held[id] {
        assert id in w'.held;
      } else {
        var other :| other in w.held && other != id && h in w.held[other];
        assert other in w'.held && h in w'.held[other];
      }
    }
  }

  lemma DestroyKeepsOwnership(w: World, id: Id, w': World)
    requires Owned(w) && Next(w, Destroy(id), w')
    ensures Owned(w')
  {
    OthersUntouched(w, id, w'.layer, {});
    forall h | h in w'.layer.open
      ensures exists other :: other in w'.held && h in w'.held[other]
    {
      var other :| other in w.held && other != id && h in w.held[other];
      assert other in w'.held && h in w'.held[other];
    }
  }

  lemma CreateKeepsOwnership(w: World, id: Id, w': World)
    requires Owned(w) && Next(w, Create(id), w')
    ensures Owned(w')
  {
    forall h | h in w'.layer.open
      ensures exists other :: other in w'.held && h in w'.held[other]
    {
      var other :| other in w.held && h in w.held[other];
      assert other in w'.held && h in w'.held[other];
    }
  }

  lemma MoveKeepsOwnership(w: World, from: Id, to: Id, w': World)
    requires Owned(w) && Next(w, Move(from, to), w') && from != to
    ensures Owned(w')
  {
    OthersUntouched(w, to, w'.layer, {});
    forall h | h in w'.layer.open
      ensures exists other :: other in w'.held && h in w'.held[other]
    {
      var other :| other in w.held && other != to && h in w.held[other];
      if other == from {
        assert to in w'.held && h in w'.held[to];
      } else {
        assert other in w'.held && h in w'.held[other];
      }
    }
  }

  /** Over every run the open handles are those of the live objects, each held by exactly one. */
  lemma {:induction false} RunKeepsOwnership(worlds: seq<World>, actions: seq<Action>, n: nat)
    requires IsRun(worlds, actions) && n < |worlds| && Owned(worlds[0])
    ensures Owned(worlds[n])
  {
    if n > 0 {
      RunKeepsOwnership(worlds, actions, n - 1);
      var w, w' := worlds[n - 1], worlds[n];
      match actions[n - 1]
      case Create(id) => CreateKeepsOwnership(w, id, w');
      case Operate(id) => OperateKeepsOwnership(w, id, w');
      case Destroy(id) => DestroyKeepsOwnership(w, id, w');
      case Move(from, to) => if from != to { MoveKeepsOwnership(w, from, to, w'); }
    }
  }

  const EMPTY := World(Snapshot({}, map[], multiset{}, multiset{}, {}, []), map[])

  /**
    From a process with no sockets: a handle is closed exactly as often as it was opened once nobody
    holds it, one time less while its owner lives, and when all objects are gone nothing is left open.
    */
  lemma NoLeakNoDoubleClose(worlds: seq<World>, actions: seq<Action>, n: nat, h: Handle)
    requires IsRun(worlds, actions) && n < |worlds| && worlds[0] == EMPTY
    ensures var w := worlds[n];
            && w.layer.acquired[h]
               == w.layer.released[h] + (if exists id :: id in w.held && h in w.held[id] then 1 else 0)
            && (w.held == map[] ==> w.layer.open == {})
  {
    RunKeepsOwnership(worlds, actions, n);
    var w := worlds[n];
    assert w.layer.acquired[h] == w.layer.released[h] + multiset(w.layer.open)[h];
    if h in w.layer.open {
      assert exists id :: id in w.held && h in w.held[id];
    }
  }
}
