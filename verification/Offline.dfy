/** Nodes that can go offline, and their synchronisation by merging stores pairwise in place. */
module Offline {
  import opened Clocks
  import opened Crdts
  import opened Convergence
  import opened VectorClocks
  import opened LiveObjects
  import opened OperationQueue
  import opened Stores
  import opened Engines
  import opened Nodes
  import opened Isolation
  import opened SyncPass
  import opened Agreement

  // ---- Merging one store into another ----

  /** Merging two objects changes no map of objects, ... */
  method MergeQuietly(a: CRDT, ghost v: ObjectState, b: CRDT, ghost w: ObjectState, ghost m: Objects,
                     ghost st: StoreState)
    returns (o: Option<CRDT>)
    requires ValidObject(a) && ObjectStateOf(a) == v && ValidObject(b) && ObjectStateOf(b) == w && Denotes(m, st)
    ensures Denotes(m, st)
    ensures o.Some? <==> Mergeable(v, w)
    ensures o.Some? ==> fresh(Own(o.value)) && ValidObject(o.value) && MergeOf(v, w, ObjectStateOf(o.value))
  {
    ghost var extent := Extent(m);
    o := MergeCRDT(a, b);
    StillDenotes((m, st, extent));
  }

  method MergeQuietlyTwo(a: CRDT, ghost v: ObjectState, b: CRDT, ghost w: ObjectState,
                        ghost ours: Objects, ghost snap: StoreState, ghost theirs: Objects, ghost data: StoreState)
    returns (o: Option<CRDT>)
    requires ValidObject(a) && ObjectStateOf(a) == v && ValidObject(b) && ObjectStateOf(b) == w
    requires Denotes(ours, snap) && Denotes(theirs, data)
    ensures Denotes(ours, snap) && Denotes(theirs, data)
    ensures o.Some? <==> Mergeable(v, w)
    ensures o.Some? ==> fresh(Own(o.value)) && ValidObject(o.value) && MergeOf(v, w, ObjectStateOf(o.value))
  {
    ghost var extent := Extent(theirs);
    o := MergeQuietly(a, v, b, w, ours, snap);
    StillDenotes((theirs, data, extent));
  }

  /** The object to install for one of theirs, if any; the snapshots stay as they are. */
  method Combined(ours: Objects, ghost snap: StoreState, theirs: Objects, ghost data: StoreState, key: string)
      returns (o: Option<CRDT>)
    requires Denotes(ours, snap) && Denotes(theirs, data) && key in theirs
    ensures Denotes(ours, snap) && Denotes(theirs, data)
    ensures key in data && (o.None? <==> key in snap && !Mergeable(snap[key], data[key]))
    ensures o.Some? ==> ValidObject(o.value) && (if key in snap then fresh(Own(o.value)) else o.value == theirs[key])
    ensures o.Some? ==> Incorporates(snap, data, key, ObjectStateOf(o.value))
  {
    assert ObjectStateOf(theirs[key]) == data[key];
    if key in ours {
      assert ObjectStateOf(ours[key]) == snap[key];
      o := MergeQuietlyTwo(ours[key], snap[key], theirs[key], data[key], ours, snap, theirs, data);
    } else {
      o := Some(theirs[key]);
    }
  }

  /** ... and so does the store. */
  method Prepare(e: Engine, ghost st: StoreState, ours: Objects, ghost snap: StoreState, theirs: Objects,
                 ghost data: StoreState, key: string)
    returns (o: Option<CRDT>)
    requires e.Valid() && e.View() == st && Denotes(ours, snap) && Denotes(theirs, data) && key in theirs
    ensures e.Valid() && e.View() == st && Denotes(ours, snap) && Denotes(theirs, data)
    ensures key in data && (o.None? <==> key in snap && !Mergeable(snap[key], data[key]))
    ensures o.Some? ==> ValidObject(o.value) && (if key in snap then fresh(Own(o.value)) else o.value == theirs[key])
    ensures o.Some? ==> Incorporates(snap, data, key, ObjectStateOf(o.value))
  {
    ghost var territory := Territory(e);
    o := Combined(ours, snap, theirs, data, key);
    StillHas((e, st, territory));
  }

  ghost predicate Incorporates(snap: StoreState, data: StoreState, key: string, v: ObjectState)
    requires key in data
  {
    if key in snap then MergeOf(snap[key], data[key], v) else v == data[key]
  }

  /** One turn of a merge loop, and what its installed object owns. */
  method MergeKey(e: Engine, ours: Objects, ghost snap: StoreState, theirs: Objects, ghost data: StoreState,
                  key: string,
                  ghost own: set<object>) returns (ghost more: set<object>)
    requires e.Valid() && Denotes(ours, snap) && Denotes(theirs, data) && key in theirs
    requires own == Own(theirs[key]) && e.mem.Repr !! own
    modifies e.mem`objects, e.mem`Repr
    ensures e.Valid() && Denotes(ours, snap) && Denotes(theirs, data)
    ensures key in data && Turn(snap, data, old(e.View()), e.View(), key)
    ensures e.mem.Repr == old(e.mem.Repr) + more && (more == own || fresh(more))
  {
    ghost var st := e.View();
    more := {};
    var o := Prepare(e, st, ours, snap, theirs, data, key);
    if o.Some? {
      more := Own(o.value);
      TurnBy(snap, data, st, key, ObjectStateOf(o.value));
      e.ApplyMergedCRDT(key, o.value, ours, snap, theirs, data);
    }
  }

  /** What each object owns; merging and installing do not change it. */
  ghost function OwnMap(m: Objects): map<string, set<object>>
    reads Refs(m)
  {
    map k | k in m :: Own(m[k])
  }

  twostate lemma StillOwns(x: (Objects, map<string, set<object>>, set<object>))
    requires x.2 == Refs(x.0) && unchanged(x.2) && old(OwnMap(x.0)) == x.1
    ensures OwnMap(x.0) == x.1
  {
  }

  ghost predicate Unclaimed(repr: set<object>, owns: map<string, set<object>>, todo: set<string>) {
    forall j :: j in todo && j in owns ==> repr !! owns[j]
  }

  method MergeNext(e: Engine, ours: Objects, ghost snap: StoreState, theirs: Objects, ghost data: StoreState,
                   key: string, ghost todo: set<string>, ghost owns: map<string, set<object>>)
    requires e.Valid() && Denotes(ours, snap) && Denotes(theirs, data) && key in todo && todo <= theirs.Keys
    requires owns == OwnMap(theirs) && Unclaimed(e.mem.Repr, owns, todo)
    modifies e.mem`objects, e.mem`Repr
    ensures e.Valid() && Denotes(ours, snap) && Denotes(theirs, data)
    ensures key in data && Turn(snap, data, old(e.View()), e.View(), key)
    ensures owns == OwnMap(theirs) && Unclaimed(e.mem.Repr, owns, todo - {key})
    ensures forall x :: x in e.mem.Repr ==> x in old(e.mem.Repr) || x in owns[key] || fresh(x)
  {
    ghost var refs := Refs(theirs);
    OwnsApart(theirs, owns, key);
    NoStores(theirs, e.mem);
    ghost var more := MergeKey(e, ours, snap, theirs, data, key, owns[key]);
    StillOwns((theirs, owns, refs));
  }

  lemma OwnsApart(m: Objects, owns: map<string, set<object>>, key: string)
    requires ValidObjects(m) && owns == OwnMap(m) && key in m
    ensures owns[key] == Own(m[key]) && forall j :: j in m && j != key ==> owns[j] !! owns[key]
  {
  }

  /** One direction of the exchange: merge theirs into the engine whose snapshot is ours, key by key. */
  method MergeInto(e: Engine, ours: Objects, ghost snap: StoreState, theirs: Objects, ghost data: StoreState,
                   ghost own: set<object>)
    requires e.Valid() && Denotes(ours, snap) && Denotes(theirs, data)
    requires Owned(theirs, own) && e.mem.Repr !! own
    modifies e.mem`objects, e.mem`Repr
    ensures e.Valid() && Denotes(ours, snap) && Denotes(theirs, data)
    ensures SyncOf(snap, data, old(e.View()), e.View())
    ensures forall x :: x in e.mem.Repr ==> x in old(e.mem.Repr) || x in own || fresh(x)
  {
    ghost var before, owns := e.View(), OwnMap(theirs);
    assert forall k :: k in owns ==> owns[k] <= own;
    var todo := theirs.Keys;
    while todo != {}
      invariant todo <= theirs.Keys
      invariant e.Valid() && Denotes(ours, snap) && Denotes(theirs, data)
      invariant SyncedBut(snap, data, before, e.View(), todo)
      invariant owns == OwnMap(theirs) && Unclaimed(e.mem.Repr, owns, todo)
      invariant forall x :: x in e.mem.Repr ==> x in old(e.mem.Repr) || x in own || fresh(x)
    {
      var key :| key in todo;
      ghost var mid := e.View();
      MergeNext(e, ours, snap, theirs, data, key, todo, owns);
      SyncTurn(snap, data, before, mid, e.View(), key, todo);
      todo := todo - {key};
    }
  }

  // ---- Nodes that can be offline ----

  datatype Failure = NodeOffline | Refused(why: Rejection)

  class PersistentEngine {
    const nodeID: string
    const engine: Engine
    var offline: bool
    /** The operations accepted while online. */
    var operations: seq<Op>

    constructor (nodeID: string, maxBytes: int)
      ensures engine.Valid() && this.nodeID == nodeID && !offline && operations == [] && engine.View() == map[]
      ensures fresh(engine) && fresh(engine.mem) && fresh(engine.mem.ops) && engine.mem.Repr == {}
    {
      this.nodeID := nodeID;
      engine := new Engine(maxBytes);
      offline, operations := false, [];
    }

    method GoOffline()
      modifies `offline
      ensures offline
    {
      offline := true;
    }

    method ComeOnline()
      modifies `offline
      ensures !offline
    {
      offline := false;
    }

    /** An offline node refuses everything and changes nothing. */
    method LWWAdd(nodeID: string, key: string, element: string, ts: VectorClock?) returns (err: Option<Failure>)
      requires engine.Valid() && (ts != null ==> !ts.ticking) && this !in engine.mem.Repr
      modifies `operations, engine.mem, engine.mem.ops, engine.mem.Repr
      ensures engine.Valid() && this !in engine.mem.Repr
      ensures offline ==> err == Some(NodeOffline) && engine.View() == old(engine.View())
      ensures !offline ==>
        var op := old(OpState(Op(OpAdd, key, nodeID, element, 0, ts)));
        var refusal := old(Refusal(engine.View(), op));
        engine.View() == old(Submit(engine.View(), op))
        && (if refusal.None? then err == None else err == Some(Refused(refusal.value)))
      ensures operations == old(operations) + if err.None? then [Op(OpAdd, key, nodeID, element, 0, ts)] else []
    {
      if offline { return Some(NodeOffline); }
      var why := engine.LWWAdd(nodeID, key, element, ts);
      if why.Some? { return Some(Refused(why.value)); }
      Note(engine.View(), Op(OpAdd, key, nodeID, element, 0, ts));
      err := None;
    }

    method LWWRemove(nodeID: string, key: string, element: string, ts: VectorClock?) returns (err: Option<Failure>)
      requires engine.Valid() && (ts != null ==> !ts.ticking) && this !in engine.mem.Repr
      modifies `operations, engine.mem, engine.mem.ops, engine.mem.Repr
      ensures engine.Valid() && this !in engine.mem.Repr
      ensures offline ==> err == Some(NodeOffline) && engine.View() == old(engine.View())
      ensures !offline ==>
        var op := old(OpState(Op(OpRemove, key, nodeID, element, 0, ts)));
        var refusal := old(Refusal(engine.View(), op));
        engine.View() == old(Submit(engine.View(), op))
        && (if refusal.None? then err == None else err == Some(Refused(refusal.value)))
      ensures operations == old(operations) + if err.None? then [Op(OpRemove, key, nodeID, element, 0, ts)] else []
    {
      if offline { return Some(NodeOffline); }
      var why := engine.LWWRemove(nodeID, key, element, ts);
      if why.Some? { return Some(Refused(why.value)); }
      Note(engine.View(), Op(OpRemove, key, nodeID, element, 0, ts));
      err := None;
    }

    method CounterInc(nodeID: string, key: string, delta: nat, ts: VectorClock?) returns (err: Option<Failure>)
      requires engine.Valid() && (ts != null ==> !ts.ticking) && this !in engine.mem.Repr
      modifies `operations, engine.mem, engine.mem.ops, engine.mem.Repr
      ensures engine.Valid() && this !in engine.mem.Repr
      ensures offline ==> err == Some(NodeOffline) && engine.View() == old(engine.View())
      ensures !offline ==>
        var op := old(OpState(Op(OpCounterInc, key, nodeID, "", delta, ts)));
        var refusal := old(Refusal(engine.View(), op));
        engine.View() == old(Submit(engine.View(), op))
        && (if refusal.None? then err == None else err == Some(Refused(refusal.value)))
      ensures operations == old(operations) + if err.None? then [Op(OpCounterInc, key, nodeID, "", delta, ts)] else []
    {
      if offline { return Some(NodeOffline); }
      var why := engine.CounterInc(nodeID, key, delta, ts);
      if why.Some? { return Some(Refused(why.value)); }
      Note(engine.View(), Op(OpCounterInc, key, nodeID, "", delta, ts));
      err := None;
    }

    method Note(ghost st: StoreState, op: Op)
      requires EngineHas(engine, st)
      modifies `operations
      ensures EngineHas(engine, st) && operations == old(operations) + [op]
    {
      assert this !in Refs(engine.mem.objects);
      assert forall c :: c in engine.mem.ops.clocks ==> c as object != this;
      operations := operations + [op];
    }

  }

  /** The two engines are sound and share no live object. */
  ghost predicate Neighbours(e1: Engine, e2: Engine)
    reads e1.mem, e1.mem.ops, Refs(e1.mem.objects), e1.mem.ops.clocks
    reads e2.mem, e2.mem.ops, Refs(e2.mem.objects), e2.mem.ops.clocks
  {
    e1.Valid() && e2.Valid() && e1.mem != e2.mem && e1.mem.Repr !! e2.mem.Repr
  }

  /** Both snapshots, before either store changes. */
  method Snapshots(e1: Engine, ghost st1: StoreState, e2: Engine, ghost st2: StoreState)
    returns (crdts1: Objects, crdts2: Objects, ghost own1: set<object>, ghost own2: set<object>)
    requires Neighbours(e1, e2) && e1.View() == st1 && e2.View() == st2
    ensures Neighbours(e1, e2) && e1.View() == st1 && e2.View() == st2
    ensures Denotes(crdts1, Export(st1)) && Denotes(crdts2, Export(st2))
    ensures Owned(crdts1, own1) && Owned(crdts2, own2) && fresh(own1) && fresh(own2) && own1 !! own2
  {
    crdts1, own1 := GetBeside(e2, st2, e1, st1, map[], map[], {});
    crdts2, own2 := GetBeside(e1, st1, e2, st2, crdts1, Export(st1), own1);
  }

  /** Taking a snapshot of the second engine changes nothing of the first, ... */
  method GetBeside(e1: Engine, ghost st1: StoreState, e2: Engine, ghost st2: StoreState,
                   ghost other: Objects, ghost snap: StoreState, ghost own: set<object>)
                     returns (crdts: Objects, ghost own2: set<object>)
    requires Neighbours(e1, e2) && e1.View() == st1 && e2.View() == st2
    requires Denotes(other, snap) && Owned(other, own)
    ensures Neighbours(e1, e2) && e1.View() == st1 && e2.View() == st2
    ensures Denotes(other, snap) && Owned(other, own)
    ensures Denotes(crdts, Export(st2)) && Owned(crdts, own2) && fresh(own2)
  {
    ghost var territory := Territory(e1);
    crdts, own2 := GetFrom(e2, st2, other, snap, own);
    StillHas((e1, st1, territory));
  }

  /** ... of itself or of another snapshot. */
  method GetFrom(e: Engine, ghost st: StoreState, ghost other: Objects, ghost snap: StoreState, ghost own: set<object>)
    returns (crdts: Objects, ghost own2: set<object>)
    requires e.Valid() && e.View() == st && Denotes(other, snap) && Owned(other, own)
    ensures e.Valid() && e.View() == st && Denotes(other, snap) && Owned(other, own)
    ensures Denotes(crdts, Export(st)) && Owned(crdts, own2) && fresh(own2)
  {
    ghost var extent := Extent(other);
    crdts, own2 := e.GetAllCRDTs();
    StillDenotes((other, snap, extent));
    assert Owned(other, own);
  }

  /** One direction of the exchange does not change another engine. */
  method MergeBetween(e: Engine, ours: Objects, ghost snap: StoreState, theirs: Objects, ghost data: StoreState,
                      ghost own: set<object>,
                      ghost other: Engine, ghost st: StoreState)
    requires e.Valid() && Denotes(ours, snap) && Denotes(theirs, data)
    requires Owned(theirs, own) && e.mem.Repr !! own
    requires e.mem != other.mem && EngineHas(other, st)
    modifies e.mem`objects, e.mem`Repr
    ensures e.Valid() && Denotes(ours, snap) && Denotes(theirs, data)
    ensures SyncOf(snap, data, old(e.View()), e.View())
    ensures forall x :: x in e.mem.Repr ==> x in old(e.mem.Repr) || x in own || fresh(x)
    ensures EngineHas(other, st)
  {
    ghost var territory := Territory(other);
    OtherStore(other, e.mem);
    MergeInto(e, ours, snap, theirs, data, own);
    StillHas((other, st, territory));
  }

  /** `syncPersistentNodes`: each engine merges the other's snapshot. */
  method SyncEngines(e1: Engine, e2: Engine)
    requires Neighbours(e1, e2)
    modifies e1.mem`objects, e1.mem`Repr, e2.mem`objects, e2.mem`Repr
    ensures Neighbours(e1, e2)
    ensures PairSync(old(e1.View()), old(e2.View()), e1.View(), e2.View())
    ensures fresh(e1.mem.Repr - old(e1.mem.Repr)) && fresh(e2.mem.Repr - old(e2.mem.Repr))
  {
    ghost var st1, st2 := e1.View(), e2.View();
    var crdts1, crdts2, own1, own2 := Snapshots(e1, st1, e2, st2);
    MergeBetween(e1, crdts1, Export(st1), crdts2, Export(st2), own2, e2, st2);
    NoStores(crdts1, e1.mem);
    assert Owned(crdts1, own1);
    ghost var st1' := e1.View();
    MergeBetween(e2, crdts2, Export(st2), crdts1, Export(st1), own1, e1, st1');
  }

  /** After an exchange the stores share element clocks, so pruning one of them shrinks clocks of the other,
      which stays sound; its counters, and whatever it does not share, stay as they are. */
  method PruneOne(e1: Engine, e2: Engine, active: set<string>)
    requires Neighbours(e1, e2)
    modifies Reach(e1.mem.objects)
    ensures Neighbours(e1, e2) && e1.View() == PrunedStore(old(e1.View()), active)
    ensures StatePartly(old(e2.View()), e2.View(), active) && e2.mem.Slack() >= old(e2.mem.Slack())
    ensures forall c :: c in old(Reach(e1.mem.objects)) ==> c.entries == Restrict(old(c.entries), active)
  {
    ghost var reach, st, frame, queue := Reach(e1.mem.objects), e2.View(), Frame(e2), States(e2.mem.ops.ops);
    CountersApart(e1, e2);
    NotClocks(e2, reach);
    MirrorsStates(e2.mem.ops.ops, queue);
    e1.mem.PruneVectorClocks(active);
    PrunedAround((e2, st, queue, reach, active, frame));
  }

  /** Everything of the engine but clocks. */
  ghost function Frame(e: Engine): set<object>
    reads e.mem
  {
    {e.mem, e.mem.ops} + Refs(e.mem.objects)
  }

  lemma NotClocks(e: Engine, reach: set<VectorClock>)
    ensures forall c :: c in reach ==> c as object !in Frame(e)
  {
  }

  /** Pruning some clocks, but none that its counters tick, leaves an engine sound. */
  twostate lemma PrunedAround(x: (Engine, StoreState, seq<Operation>, set<VectorClock>, set<string>, set<object>))
    requires old(EngineHas(x.0, x.1)) && x.5 == old(Frame(x.0)) && unchanged(x.5)
    requires old(States(x.0.mem.ops.ops)) == x.2 && old(Mirrors(x.0.mem.ops.ops, x.2))
    requires AllPruned(x.3, x.4)
    requires forall c: VectorClock :: c in old(Territory(x.0)) && c !in x.3 ==> c.entries == old(c.entries)
    requires forall k :: k in x.0.mem.objects && x.0.mem.objects[k].CounterRef?
               ==> TimestampOf(x.0.mem.objects[k]) !in x.3
    ensures x.0.Valid() && StatePartly(x.1, x.0.View(), x.4)
    ensures Footprint(States(x.0.mem.ops.ops)) <= Footprint(x.2)
  {
    var mem := x.0.mem;
    QueueShrunk((mem.ops.ops, x.2));
    AllReadPartly((mem.objects, x.1, x.3, x.4));
  }

  /** The clocks that counters tick are not shared. */
  lemma CountersApart(e1: Engine, e2: Engine)
    requires Neighbours(e1, e2)
    ensures forall k :: k in e2.mem.objects && e2.mem.objects[k].CounterRef?
              ==> TimestampOf(e2.mem.objects[k]) !in Reach(e1.mem.objects)
  {
  }

  // ---- Synchronising all nodes ----

  /** Engine k has the value sts[k], and no two engines share a live object. */
  ghost predicate Together(engines: seq<Engine>, sts: seq<StoreState>)
    reads *
  {
    && |sts| == |engines|
    && (forall k :: 0 <= k < |engines| ==> EngineHas(engines[k], sts[k]))
    && (forall k, l :: 0 <= k < |engines| && 0 <= l < |engines| && k != l ==> Separated(engines[k], engines[l]))
  }

  ghost predicate Separated(e1: Engine, e2: Engine)
    reads e1.mem, e2.mem
  {
    e1.mem != e2.mem && e1.mem.Repr !! e2.mem.Repr
  }

  method SyncAmong(ghost engines: seq<Engine>, ghost i: nat, ghost j: nat, e1: Engine, e2: Engine,
                   ghost sts: seq<StoreState>)
    returns (ghost mid: seq<StoreState>)
    requires i < |engines| && j < |engines| && i != j && e1 == engines[i] && e2 == engines[j]
    requires Together(engines, sts)
    modifies e1.mem`objects, e1.mem`Repr, e2.mem`objects, e2.mem`Repr
    ensures |mid| == |sts| && mid == sts[i := mid[i]][j := mid[j]] && PairSync(sts[i], sts[j], mid[i], mid[j])
    ensures Together(engines, mid)
  {
    assert Separated(e1, e2) && EngineHas(e1, sts[i]) && EngineHas(e2, sts[j]);
    forall k | 0 <= k < |engines| && k != i && k != j
      ensures e1.mem !in Territory(engines[k]) && e2.mem !in Territory(engines[k]) {
      assert Separated(engines[k], e1) && Separated(engines[k], e2);
      OtherStore(engines[k], e1.mem);
      OtherStore(engines[k], e2.mem);
    }
    SyncEngines(e1, e2);
    mid := sts[i := e1.View()][j := e2.View()];
    forall k | 0 <= k < |engines| && k != i && k != j ensures EngineHas(engines[k], mid[k]) {
      StillHas((engines[k], sts[k], old(Territory(engines[k]))));
    }
  }

  /** The body of the nested loop: nothing happens when either node is offline. */
  method SyncPersistentNodes(nodes: seq<PersistentEngine>, i: nat, j: nat, ghost online: seq<bool>,
                             ghost sts: seq<StoreState>)
    returns (ghost mid: seq<StoreState>)
    requires i < |nodes| && j < |nodes| && i != j && |online| == |nodes| == |sts|
    requires OnlineOf(nodes) == online && Together(EnginesOf(nodes), sts)
    modifies nodes[i].engine.mem`objects, nodes[i].engine.mem`Repr, nodes[j].engine.mem`objects,
      nodes[j].engine.mem`Repr
    ensures |mid| == |nodes| && PairTurn(online, i, j, sts, mid) && Together(EnginesOf(nodes), mid)
    ensures OnlineOf(nodes) == online
  {
    mid := sts;
    if !nodes[i].offline && !nodes[j].offline {
      mid := SyncAmong(EnginesOf(nodes), i, j, nodes[i].engine, nodes[j].engine, sts);
    }
  }

  ghost function EnginesOf(nodes: seq<PersistentEngine>): (r: seq<Engine>)
    ensures |r| == |nodes| && forall k :: 0 <= k < |nodes| ==> r[k] == nodes[k].engine
  {
    seq(|nodes|, k requires 0 <= k < |nodes| => nodes[k].engine)
  }

  ghost function OnlineOf(nodes: seq<PersistentEngine>): (r: seq<bool>)
    reads nodes
    ensures |r| == |nodes| && forall k :: 0 <= k < |nodes| ==> r[k] == !nodes[k].offline
  {
    seq(|nodes|, k requires 0 <= k < |nodes| reads nodes => !nodes[k].offline)
  }

  ghost function Mems(nodes: seq<PersistentEngine>): set<MemStore> {
    set k | 0 <= k < |nodes| :: nodes[k].engine.mem
  }

  /** The loops of `syncAllNodes`, for a given order of the nodes. */
  method SyncInOrder(nodes: seq<PersistentEngine>, ghost inits: seq<StoreState>) returns (ghost end: seq<StoreState>)
    requires Together(EnginesOf(nodes), inits)
    modifies Mems(nodes)`objects, Mems(nodes)`Repr
    ensures |end| == |inits| == |nodes| && Pass(OnlineOf(nodes), 0, 1, inits, end) && Together(EnginesOf(nodes), end)
  {
    ghost var online := OnlineOf(nodes);
    end := inits;
    var i := 0;
    while i < |nodes|
      invariant 0 <= i <= |nodes| && OnlineOf(nodes) == online && |end| == |nodes|
      invariant Together(EnginesOf(nodes), end) && LeadsTo(online, inits, i, i + 1, end)
    {
      end := SyncRow(nodes, i, online, inits, end);
      i := i + 1;
    }
    EndLeads(online, inits, i, i + 1, end);
  }

  /** The inner loop: node i with every later one. */
  method SyncRow(nodes: seq<PersistentEngine>, i: nat, ghost online: seq<bool>, ghost inits: seq<StoreState>,
                 ghost sts: seq<StoreState>)
    returns (ghost end: seq<StoreState>)
    requires i < |nodes| && OnlineOf(nodes) == online && |inits| == |sts| == |nodes|
    requires Together(EnginesOf(nodes), sts) && LeadsTo(online, inits, i, i + 1, sts)
    modifies Mems(nodes)`objects, Mems(nodes)`Repr
    ensures OnlineOf(nodes) == online && |end| == |nodes|
    ensures Together(EnginesOf(nodes), end) && LeadsTo(online, inits, i + 1, i + 2, end)
  {
    end := sts;
    var j := i + 1;
    while j < |nodes|
      invariant i < j <= |nodes| && OnlineOf(nodes) == online && |end| == |nodes|
      invariant Together(EnginesOf(nodes), end) && LeadsTo(online, inits, i, j, end)
    {
      var next := j + 1;
      end := SyncCell(nodes, i, j, next, online, inits, end);
      j := next;
    }
    RowLeads(online, inits, i, j, end);
  }

  method SyncCell(nodes: seq<PersistentEngine>, i: nat, j: nat, ghost next: nat, ghost online: seq<bool>,
                  ghost inits: seq<StoreState>,
                  ghost sts: seq<StoreState>) returns (ghost end: seq<StoreState>)
    requires i < j < next == j + 1 && j < |nodes| && OnlineOf(nodes) == online && |inits| == |sts| == |nodes|
    requires Together(EnginesOf(nodes), sts) && LeadsTo(online, inits, i, j, sts)
    modifies Mems(nodes)`objects, Mems(nodes)`Repr
    ensures OnlineOf(nodes) == online && |end| == |nodes|
    ensures Together(EnginesOf(nodes), end) && LeadsTo(online, inits, i, next, end)
  {
    end := SyncPersistentNodes(nodes, i, j, online, sts);
    TurnLeads(online, inits, i, j, next, sts, end);
  }

  /** The values of the nodes' stores. */
  ghost function Views(nodes: seq<PersistentEngine>): (r: seq<StoreState>)
    reads *
    ensures |r| == |nodes| && forall k :: 0 <= k < |nodes| ==> r[k] == nodes[k].engine.View()
  {
    seq(|nodes|, k requires 0 <= k < |nodes| reads * => nodes[k].engine.View())
  }

  lemma TogetherViews(nodes: seq<PersistentEngine>, sts: seq<StoreState>)
    requires Together(EnginesOf(nodes), sts)
    ensures Views(nodes) == sts
  {
  }

  /** order lists every member of s once. */
  ghost predicate IsOrder(order: seq<string>, s: set<string>) {
    (forall x :: x in order <==> x in s) && forall i, j :: 0 <= i < j < |order| ==> order[i] != order[j]
  }

  /** The keys of a map, as a loop over it meets them. */
  method ListKeys(s: set<string>) returns (order: seq<string>)
    ensures IsOrder(order, s)
  {
    order := [];
    var todo := s;
    while todo != {}
      invariant todo <= s && IsOrder(order, s - todo)
    {
      var x :| x in todo;
      todo := todo - {x};
      order := order + [x];
    }
  }

  function Listed(nodes: map<string, PersistentEngine>, order: seq<string>): (r: seq<PersistentEngine>)
    requires forall p :: p in order ==> p in nodes
    ensures |r| == |order| && forall k :: 0 <= k < |order| ==> r[k] == nodes[order[k]]
  {
    seq(|order|, k requires 0 <= k < |order| => nodes[order[k]])
  }

  /** All nodes are sound, and no two share a live object. */
  ghost predicate NodesApart(nodes: map<string, PersistentEngine>)
    reads *
  {
    && (forall p :: p in nodes ==> nodes[p].engine.Valid())
    && (forall p, q :: p in nodes && q in nodes && p != q ==> Separated(nodes[p].engine, nodes[q].engine))
  }

  lemma NodesTogether(nodes: map<string, PersistentEngine>, order: seq<string>, sts: seq<StoreState>)
    requires IsOrder(order, nodes.Keys) && sts == Views(Listed(nodes, order))
    ensures Together(EnginesOf(Listed(nodes, order)), sts) <==> NodesApart(nodes)
  {
  }

  ghost predicate OnlineAgree(nodes: map<string, PersistentEngine>)
    reads *
  {
    forall p, q :: p in nodes && q in nodes && !nodes[p].offline && !nodes[q].offline
                   ==> nodes[p].engine.View() == nodes[q].engine.View()
  }

  /** What a pass over the listed nodes means for the nodes. */
  lemma NodesMean(nodes: map<string, PersistentEngine>, order: seq<string>, inits: seq<StoreState>,
                  end: seq<StoreState>)
    requires IsOrder(order, nodes.Keys) && |inits| == |order| && Views(Listed(nodes, order)) == end
    requires Pass(OnlineOf(Listed(nodes, order)), 0, 1, inits, end)
    ensures forall k :: 0 <= k < |order| && nodes[order[k]].offline ==> end[k] == inits[k]
    ensures var online := OnlineOf(Listed(nodes, order));
            && (forall fam, sets :: PairwiseSettled(fam, sets) && AllFit(fam, sets, inits, online)
                  ==> OnlineAgree(nodes))
            && (forall fam, sets :: LinearFamily(fam, sets) && AllFit(fam, sets, inits, online)
                                    ==> AllJoins(fam, sets, inits, online, end))
  {
    var list := Listed(nodes, order);
    PassMeans(OnlineOf(list), inits, end);
    if OnlineEqual(OnlineOf(list), end) {
      forall p, q | p in nodes && q in nodes && !nodes[p].offline && !nodes[q].offline
        ensures nodes[p].engine.View() == nodes[q].engine.View() {
        var k, l :| 0 <= k < |order| && order[k] == p && 0 <= l < |order| && order[l] == q;
        assert end[k] == end[l];
      }
    }
  }

  /** `syncAllNodes`: the nodes are listed in some order, and every pair is synchronised in turn. */
  method SyncAllNodes(nodes: map<string, PersistentEngine>) returns (order: seq<string>)
    requires NodesApart(nodes)
    modifies (set p | p in nodes :: nodes[p].engine.mem)`objects, (set p | p in nodes :: nodes[p].engine.mem)`Repr
    ensures IsOrder(order, nodes.Keys)
    ensures NodesApart(nodes) && forall p :: p in nodes ==> nodes[p].offline == old(nodes[p].offline)
    ensures var list := Listed(nodes, order);
            var online, inits, end := OnlineOf(list), old(Views(list)), Views(list);
            && Pass(online, 0, 1, inits, end)
            && (forall k :: 0 <= k < |end| && nodes[order[k]].offline ==> end[k] == inits[k])
            && (forall fam, sets :: PairwiseSettled(fam, sets) && AllFit(fam, sets, inits, online)
                  ==> OnlineAgree(nodes))
            && (forall fam, sets :: LinearFamily(fam, sets) && AllFit(fam, sets, inits, online)
                                    ==> AllJoins(fam, sets, inits, online, end))
  {
    order := ListKeys(nodes.Keys);
    var list := Listed(nodes, order);
    ghost var inits := Views(list);
    NodesTogether(nodes, order, inits);
    ghost var end := SyncInOrder(list, inits);
    TogetherViews(list, end);
    NodesTogether(nodes, order, end);
    NodesMean(nodes, order, inits, end);
  }
}
