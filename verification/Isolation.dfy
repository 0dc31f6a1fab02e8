/** Snapshots share their element clocks with the store they were taken from. They are nevertheless
    left alone by everything but pruning, because operations replace recorded clocks and only tick
    clocks that no snapshot has. */
module Isolation {
  import opened Clocks
  import opened Crdts
  import opened VectorClocks
  import opened LiveObjects
  import opened OperationQueue
  import opened Stores
  import opened Engines
  import opened Nodes
  import opened Network

  /** The snapshot has the value st, owns no more than own, and the store owns nothing of that. */
  ghost predicate Isolated(e: Engine, snap: Objects, st: StoreState, own: set<object>)
    reads e.mem, Refs(snap), Reach(snap)
  {
    Denotes(snap, st) && Owned(snap, own) && e.mem.Repr !! own
  }

  /** The clocks a store ticks and the clocks it shares are different ones. */
  lemma NothingShared(e: Engine, snap: Objects, st: StoreState, own: set<object>)
    requires e.Valid() && Isolated(e, snap, st, own)
    ensures Extent(snap) !! e.mem.Repr && e.mem !in Extent(snap) && e.mem.ops !in Extent(snap)
  {
  }

  /** The store refers to none of the snapshot's timestamps. */
  ghost predicate Unmixed(e: Engine, snap: Objects)
    reads e.mem, Refs(e.mem.objects), Refs(snap)
  {
    forall k :: k in snap ==> TimestampOf(snap[k]) !in Reach(e.mem.objects)
  }

  method TakeSnapshot(e: Engine) returns (snap: Objects, ghost own: set<object>)
    requires e.Valid()
    ensures e.Valid() && e.View() == old(e.View())
    ensures Isolated(e, snap, Export(e.View()), own) && Unmixed(e, snap) && Copies(e.mem.objects, snap, own)
  {
    snap, own := e.GetAllCRDTs();
  }

  datatype StoreAction =
    | Add(nodeID: string, key: string, element: string, ts: VectorClock?)
    | Remove(nodeID: string, key: string, element: string, ts: VectorClock?)
    | Inc(nodeID: string, key: string, delta: nat, ts: VectorClock?)
    /** Install an object, which may share clocks with the snapshot. */
    | Install(key: string, o: CRDT)
    /** Merge a received value into the snapshot's object and install the result, which does. */
    | Merge(key: string, v: ObjectState)

  predicate IsWrite(a: StoreAction) {
    a.Add? || a.Remove? || a.Inc?
  }

  ghost predicate Usable(a: StoreAction) {
    IsWrite(a) ==> a.ts == null || !a.ts.ticking
  }

  /** The operation an action submits; clocks are read when it does. */
  ghost function Submitted(a: StoreAction): Operation
    requires IsWrite(a)
    reads if IsWrite(a) then a.ts else null
  {
    match a
    case Add(n, k, x, ts) => OpState(Op(OpAdd, k, n, x, 0, ts))
    case Remove(n, k, x, ts) => OpState(Op(OpRemove, k, n, x, 0, ts))
    case Inc(n, k, d, ts) => OpState(Op(OpCounterInc, k, n, "", d, ts))
  }

  method Write(e: Engine, a: StoreAction)
    requires e.Valid() && Usable(a) && IsWrite(a)
    modifies e.mem, e.mem.ops, e.mem.Repr
    ensures e.Valid() && fresh(e.mem.Repr - old(e.mem.Repr))
    ensures e.View() == old(Submit(e.View(), Submitted(a)))
  {
    match a
    case Add(nodeID, key, element, ts) => var _ := e.LWWAdd(nodeID, key, element, ts);
    case Remove(nodeID, key, element, ts) => var _ := e.LWWRemove(nodeID, key, element, ts);
    case Inc(nodeID, key, delta, ts) => var _ := e.CounterInc(nodeID, key, delta, ts);
  }

  /** A write changes the store as it should, and no snapshot that was taken before. */
  method WriteBeside(e: Engine, ghost snap: Objects, ghost st: StoreState, ghost own: set<object>, a: StoreAction)
    requires e.Valid() && Isolated(e, snap, st, own) && Usable(a) && IsWrite(a)
    modifies e.mem, e.mem.ops, e.mem.Repr
    ensures e.Valid() && Isolated(e, snap, st, own)
    ensures e.View() == old(Submit(e.View(), Submitted(a)))
    ensures fresh(e.mem.Repr - old(e.mem.Repr))
  {
    ghost var extent := Extent(snap);
    NothingShared(e, snap, st, own);
    Write(e, a);
    Undisturbed((snap, st, own, extent));
  }

  /** Installing any object that is none of the snapshot's own does not change the snapshot either. */
  method InstallBeside(e: Engine, ghost snap: Objects, ghost st: StoreState, ghost own: set<object>, key: string,
                       o: CRDT)
    requires e.Valid() && Isolated(e, snap, st, own) && ValidObject(o) && Own(o) !! own
    requires forall k :: k in e.mem.objects && k != key ==> Own(e.mem.objects[k]) !! Own(o)
    modifies e.mem`objects, e.mem`Repr
    ensures e.Valid() && Isolated(e, snap, st, own)
    ensures e.View() == old(e.View())[key := old(ObjectStateOf(o))]
    ensures e.mem.Repr == old(e.mem.Repr) + Own(o)
  {
    ghost var extent := Extent(snap);
    NothingShared(e, snap, st, own);
    NoObjects(map[]);
    e.ApplyMergedCRDT(key, o, map[], map[], map[], map[]);
    Undisturbed((snap, st, own, extent));
  }

  /** The object to install for a received value, as `applyCRDTSync` computes it from its snapshot. */
  method MergeFor(e: Engine, snap: Objects, ghost st: StoreState, ghost own: set<object>, key: string, v: ObjectState)
    returns (o: Option<CRDT>)
    requires e.Valid() && Isolated(e, snap, st, own)
    ensures e.Valid() && Isolated(e, snap, st, own) && e.View() == old(e.View())
    ensures o.None? <==> key in st && !Mergeable(st[key], v)
    ensures o.Some? ==> ValidObject(o.value) && fresh(Own(o.value))
    ensures o.Some? ==> if key in st then MergeOf(st[key], v, ObjectStateOf(o.value)) else ObjectStateOf(o.value) == v
  {
    ghost var extent, territory, was := Extent(snap), Territory(e), e.View();
    o := Incoming(snap, st, key, v);
    Undisturbed((snap, st, own, extent));
    StillHas((e, was, territory));
  }

  method MergeBeside(e: Engine, snap: Objects, ghost st: StoreState, ghost own: set<object>, key: string,
                     v: ObjectState)
    requires e.Valid() && Isolated(e, snap, st, own)
    modifies e.mem`objects, e.mem`Repr
    ensures e.Valid() && Isolated(e, snap, st, own) && fresh(e.mem.Repr - old(e.mem.Repr))
    ensures Turn(st, map[key := v], old(e.View()), e.View(), key)
  {
    ghost var was := e.View();
    var o := MergeFor(e, snap, st, own, key, v);
    if o.Some? {
      TurnBy(st, map[key := v], was, key, ObjectStateOf(o.value));
      InstallBeside(e, snap, st, own, key, o.value);
    }
  }

  // ---- Sequences of actions ----

  ghost function RefsFrom(actions: seq<StoreAction>, i: nat): set<object> {
    set j | i <= j < |actions| && actions[j].Install? :: Ref(actions[j].o)
  }

  /** The objects still to be installed are sound and own what owns says, none of it the store's. */
  ghost predicate Waiting(actions: seq<StoreAction>, i: nat, owns: seq<set<object>>, repr: set<object>)
    requires |owns| == |actions|
    reads RefsFrom(actions, i)
  {
    forall j :: i <= j < |actions| && actions[j].Install? ==>
      ValidObject(actions[j].o) && Own(actions[j].o) == owns[j] && owns[j] !! repr
  }

  twostate lemma StillWaiting(x: (seq<StoreAction>, nat, seq<set<object>>, set<object>, set<object>))
    requires |x.2| == |x.0| && x.4 == RefsFrom(x.0, x.1) && unchanged(x.4) && old(Waiting(x.0, x.1, x.2, x.3))
    ensures Waiting(x.0, x.1, x.2, x.3)
  {
  }

  /** The objects to be installed own nothing in common with each other or with the snapshot. */
  ghost predicate Distinct(owns: seq<set<object>>, own: set<object>) {
    && (forall j :: 0 <= j < |owns| ==> owns[j] !! own)
    && (forall j, k :: 0 <= j < k < |owns| ==> owns[j] !! owns[k])
  }

  /** One action: afterwards the next may follow. */
  method StepBeside(e: Engine, snap: Objects, ghost st: StoreState, ghost own: set<object>,
                    actions: seq<StoreAction>, i: nat, ghost owns: seq<set<object>>)
    requires e.Valid() && Isolated(e, snap, st, own) && i < |actions| == |owns| && Usable(actions[i])
    requires Waiting(actions, i, owns, e.mem.Repr) && Distinct(owns, own)
    modifies e.mem, e.mem.ops, e.mem.Repr
    ensures e.Valid() && Isolated(e, snap, st, own) && Waiting(actions, i + 1, owns, e.mem.Repr)
    ensures forall x :: x in e.mem.Repr ==> x in old(e.mem.Repr) || x in owns[i] || fresh(x)
  {
    ghost var refs, repr := RefsFrom(actions, i + 1), e.mem.Repr;
    assert Waiting(actions, i + 1, owns, repr);
    assert refs !! repr && e.mem !in refs && e.mem.ops !in refs;
    match actions[i]
    case Install(key, o) =>
      InstallBeside(e, snap, st, own, key, o);
    case Merge(key, v) =>
      MergeBeside(e, snap, st, own, key, v);
    case _ =>
      WriteBeside(e, snap, st, own, actions[i]);
    StillWaiting((actions, i + 1, owns, repr, refs));
  }

  /** Any sequence of writes, of installs of any objects but the snapshot's own, and of merges with the
      snapshot leaves the snapshot exactly as it was taken, though they share clocks with it. */
  method RunBeside(e: Engine, snap: Objects, ghost st: StoreState, ghost own: set<object>,
                   actions: seq<StoreAction>, ghost owns: seq<set<object>>, ghost all: set<object>)
    requires e.Valid() && Isolated(e, snap, st, own) && forall a :: a in actions ==> Usable(a)
    requires |owns| == |actions| && Waiting(actions, 0, owns, e.mem.Repr) && Distinct(owns, own)
    requires forall j :: 0 <= j < |owns| ==> owns[j] <= all
    modifies e.mem, e.mem.ops, e.mem.Repr, all
    ensures e.Valid() && Isolated(e, snap, st, own) && StateOf(snap) == old(StateOf(snap))
  {
    for i := 0 to |actions|
      invariant e.Valid() && Isolated(e, snap, st, own) && Waiting(actions, i, owns, e.mem.Repr)
      invariant forall x :: x in e.mem.Repr ==> x in old(e.mem.Repr) || x in all || fresh(x)
    {
      assert actions[i] in actions;
      StepBeside(e, snap, st, own, actions, i, owns);
    }
  }

  // ---- Pruning ----

  ghost predicate ClockPartly(c: Clock, c': Clock, active: set<string>) {
    c' == c || c' == Restrict(c, active)
  }

  /** Each clock of a set is as it was or pruned, and nothing else has changed. */
  ghost predicate ObjectPartly(a: ObjectState, b: ObjectState, active: set<string>) {
    match (a, b)
    case (ASet(s), ASet(t)) =>
      t.key == s.key && SomePruned(s.adds, t.adds, active) && SomePruned(s.removes, t.removes, active)
        && ClockPartly(s.timestamp, t.timestamp, active)
    case _ => b == a
  }

  /** Some clocks are pruned, and the other ones of the object, and the object itself, stay as they are. */
  twostate lemma ReadsPartly(x: (CRDT, ObjectState, set<VectorClock>, set<string>))
    requires AllPruned(x.2, x.3) && unchanged(Ref(x.0)) && old(ObjectStateOf(x.0)) == x.1
    requires forall c :: c in ClocksOf(x.0) && c !in x.2 ==> c.entries == old(c.entries)
    requires x.0.CounterRef? ==> TimestampOf(x.0) !in x.2
    ensures ObjectPartly(x.1, ObjectStateOf(x.0), x.3)
    ensures TimestampOf(x.0) !in x.2 ==> TimestampOf(x.0).entries == old(TimestampOf(x.0).entries)
  {
    assert TimestampOf(x.0) in ClocksOf(x.0);
  }

  twostate lemma AllReadPartly(x: (Objects, StoreState, set<VectorClock>, set<string>))
    requires AllPruned(x.2, x.3) && unchanged(Refs(x.0)) && old(Denotes(x.0, x.1))
    requires forall c :: c in Reach(x.0) && c !in x.2 ==> c.entries == old(c.entries)
    requires forall k :: k in x.0 && x.0[k].CounterRef? ==> TimestampOf(x.0[k]) !in x.2
    ensures ValidObjects(x.0) && StatePartly(x.1, StateOf(x.0), x.3)
    ensures (forall k :: k in x.0 ==> TimestampOf(x.0[k]) !in x.2) ==> SnapshotPruned(x.1, StateOf(x.0), x.3)
  {
    forall k | k in x.0
      ensures ObjectPartly(x.1[k], ObjectStateOf(x.0[k]), x.3)
      ensures TimestampOf(x.0[k]) !in x.2 ==> CopyPruned(x.1[k], ObjectStateOf(x.0[k]), x.3)
    {
      ReadsPartly((x.0[k], x.1[k], x.2, x.3));
    }
  }

  ghost predicate StatePartly(st: StoreState, st': StoreState, active: set<string>) {
    st'.Keys == st.Keys && forall k :: k in st ==> ObjectPartly(st[k], st'[k], active)
  }

  /** Pruning a store leaves the snapshots taken from it as it leaves those of module Network: of the
      element clocks, those that it shares with the store shrink, and the rest stays. */
  method PruneBeside(e: Engine, snap: Objects, ghost st: StoreState, ghost own: set<object>, active: set<string>)
    returns (ghost st': StoreState)
    requires e.Valid() && Isolated(e, snap, st, own)
    requires Unmixed(e, snap)
    modifies Reach(e.mem.objects)
    ensures e.Valid() && e.View() == PrunedStore(old(e.View()), active)
    ensures Isolated(e, snap, st', own) && Unmixed(e, snap) && SnapshotPruned(st, st', active)
  {
    ghost var reach := Reach(e.mem.objects);
    ClocksAreNotObjects(snap, reach);
    e.mem.PruneVectorClocks(active);
    AllReadPartly((snap, st, reach, active));
    st' := StateOf(snap);
  }
}
