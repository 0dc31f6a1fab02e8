/** The in-memory store: live objects, and the bounded queue of the operations applied to them. */
module Stores {
  import opened Strings
  import opened Clocks
  import opened Crdts
  import opened VectorClocks
  import opened LiveObjects
  import opened OperationQueue

  type Objects = map<string, CRDT>

  // ---- Maps of objects ----

  ghost function Refs(m: Objects): set<object> {
    set k | k in m :: Ref(m[k])
  }

  /** Every clock the objects refer to. */
  ghost function Reach(m: Objects): set<VectorClock>
    reads Refs(m)
  {
    set k, c | k in m && c in ClocksOf(m[k]) :: c
  }

  /** The value of a map of objects, also what they are sent as. */
  function StateOf(m: Objects): StoreState
    reads Refs(m), Reach(m)
  {
    map k | k in m :: ObjectStateOf(m[k])
  }

  /** Different keys hold different objects, and no two counters share the clock they tick. */
  ghost predicate ValidObjects(m: Objects)
    reads Refs(m)
  {
    && (forall k :: k in m ==> ValidObject(m[k]))
    && (forall j, k :: j in m && k in m && j != k ==> Own(m[j]) !! Own(m[k]))
  }

  /** m is valid and has the value st. */
  ghost predicate Denotes(m: Objects, st: StoreState)
    reads Refs(m), Reach(m)
  {
    ValidObjects(m) && StateOf(m) == st
  }

  /** Everything the value of a map of objects depends on. */
  ghost function Extent(m: Objects): set<object>
    reads Refs(m)
  {
    Refs(m) + Reach(m)
  }

  /** What touches none of that leaves the map as it is. */
  twostate lemma StillDenotes(x: (Objects, StoreState, set<object>))
    requires x.2 == old(Extent(x.0)) && unchanged(x.2) && old(Denotes(x.0, x.1))
    ensures Denotes(x.0, x.1)
  {
  }

  ghost predicate Owned(m: Objects, repr: set<object>)
    reads Refs(m)
  {
    forall k :: k in m ==> Own(m[k]) <= repr
  }

  lemma ExtendOwned(m: Objects, key: string, o: CRDT, repr: set<object>)
    requires Owned(m, repr)
    ensures Owned(m[key := o], repr + Own(o))
  {
  }

  /** What one object owns, no other object reads. */
  lemma Separate(m: Objects, j: string, k: string)
    requires ValidObjects(m) && j in m && k in m && j != k
    ensures Ref(m[j]) !in Own(m[k]) && forall c :: c in ClocksOf(m[j]) ==> c !in Own(m[k])
  {
  }

  /** Putting in an object that owns nothing in common with the others. */
  lemma ExtendValid(m: Objects, key: string, o: CRDT)
    requires ValidObjects(m) && ValidObject(o)
    requires forall k :: k in m && k != key ==> Own(m[k]) !! Own(o)
    ensures ValidObjects(m[key := o])
  {
  }

  lemma ExtendState(m: Objects, key: string, o: CRDT)
    ensures StateOf(m[key := o]) == StateOf(m)[key := ObjectStateOf(o)]
  {
  }

  /** Apply an operation to one object. */
  method Touch(o: CRDT, op: Op)
    requires ValidObject(o) && (op.ts != null ==> !op.ts.ticking)
    requires !op.kind.OpUnknown? && (op.kind == OpCounterInc <==> o.CounterRef?)
    modifies Own(o)
    ensures ValidObject(o) && fresh(Own(o) - old(Own(o)))
    ensures ObjectStateOf(o) == old(ObjectAfter(ObjectStateOf(o), OpState(op)))
  {
    match o
    case SetRef(s) => s.ApplySetOp(op.nodeID, op.element, op.kind == OpAdd, op.ts);
    case CounterRef(c) => c.IncrementWithTimestamp(op.nodeID, op.value, op.ts);
  }

  lemma StateByKeys(m: Objects, was: StoreState, key: string)
    requires was.Keys == m.Keys && key in m && forall j :: j in m && j != key ==> ObjectStateOf(m[j]) == was[j]
    ensures StateOf(m) == was[key := ObjectStateOf(m[key])]
  {
  }

  lemma ValidByKeys(m: Objects, key: string, owns: map<string, set<object>>)
    requires owns.Keys == m.Keys && key in m && ValidObject(m[key])
    requires forall j, k :: j in m && k in m && j != k ==> owns[j] !! owns[k]
    requires forall j :: j in m && j != key ==> ValidObject(m[j]) && Own(m[j]) == owns[j] && Own(m[j]) !! Own(m[key])
    ensures ValidObjects(m)
  {
  }

  /** Apply an operation to the object under its key; nothing else in the map changes. */
  method TouchIn(m: Objects, op: Op)
    requires ValidObjects(m) && op.key in m && (op.ts != null ==> !op.ts.ticking)
    requires !op.kind.OpUnknown? && (op.kind == OpCounterInc <==> m[op.key].CounterRef?)
    modifies Own(m[op.key])
    ensures ValidObjects(m)
    ensures StateOf(m) == old(StateOf(m)[op.key := ObjectAfter(ObjectStateOf(m[op.key]), OpState(op))])
    ensures fresh(Own(m[op.key]) - old(Own(m[op.key])))
    ensures forall j :: j in m && j != op.key ==> Own(m[j]) == old(Own(m[j]))
  {
    var key := op.key;
    ghost var was, owns := StateOf(m), map k | k in m :: Own(m[k]);
    forall j | j in m && j != key ensures Unread(m[j], owns[key]) {
      Separate(m, j, key);
    }
    TouchBeside(m[key], op, m, key, was, owns);
    forall j | j in m && j != key ensures Own(m[j]) !! Own(m[key]) {
      assert owns[j] !! owns[key];
    }
    ValidByKeys(m, key, owns);
    StateByKeys(m, was, key);
  }

  /** What the object is read through is not among the given objects. */
  ghost predicate Unread(o: CRDT, own: set<object>)
    reads Ref(o)
  {
    Ref(o) !in own && forall c :: c in ClocksOf(o) ==> c !in own
  }

  method TouchBeside(o: CRDT, op: Op, ghost m: Objects, ghost key: string, ghost was: StoreState,
                     ghost owns: map<string, set<object>>)
    requires ValidObject(o) && (op.ts != null ==> !op.ts.ticking)
    requires !op.kind.OpUnknown? && (op.kind == OpCounterInc <==> o.CounterRef?)
    requires owns.Keys == m.Keys == was.Keys
    requires forall j :: j in m && j != key ==> Unread(m[j], Own(o)) && Keeps(m[j], was[j], owns[j])
    modifies Own(o)
    ensures ValidObject(o) && fresh(Own(o) - old(Own(o)))
    ensures ObjectStateOf(o) == old(ObjectAfter(ObjectStateOf(o), OpState(op)))
    ensures forall j :: j in m && j != key ==> Keeps(m[j], was[j], owns[j])
  {
    Touch(o, op);
    forall j | j in m && j != key ensures Keeps(m[j], was[j], owns[j]) {
      assert old(Unread(m[j], Own(o)));
      StillObject((m[j], was[j], owns[j], old({Ref(m[j])} + ClocksOf(m[j]))));
    }
  }

  ghost predicate Keeps(o: CRDT, v: ObjectState, own: set<object>)
    reads Ref(o), ClocksOf(o)
  {
    ValidObject(o) && ObjectStateOf(o) == v && Own(o) == own
  }

  twostate lemma StillObject(x: (CRDT, ObjectState, set<object>, set<object>))
    requires x.3 == old({Ref(x.0)} + ClocksOf(x.0)) && unchanged(x.3)
    requires old(Keeps(x.0, x.1, x.2))
    ensures Keeps(x.0, x.1, x.2)
  {
  }

  /** One turn of the export loop. */
  method CopyInto(m: Objects, ghost st: StoreState, result: Objects, ghost copied: StoreState, ghost own: set<object>,
                  key: string, ghost want: StoreState) returns (r: Objects, ghost own': set<object>)
    requires Denotes(m, st) && key in m && want == copied[key := WithKey(ObjectStateOf(m[key]), key)]
    requires Denotes(result, copied) && key !in result && Owned(result, own) && Copies(m, result, own)
    ensures Denotes(m, st) && Denotes(r, want) && r.Keys == result.Keys + {key}
    ensures Owned(r, own') && own <= own' && fresh(own' - own) && Copies(m, r, own')
  {
    ghost var v := WithKey(ObjectStateOf(m[key]), key);
    var copy := CopyBeside(m, st, result, copied, own, key, v);
    own' := own + (Own(copy) + {TimestampOf(copy)});
    r := result[key := copy];
    Extend(result, copied, own, key, copy, v);
    ExtendCopies(m, result, own, key, copy);
  }

  /** The copies refer to the element clocks of the originals, and otherwise to clocks in own. */
  ghost predicate Copies(m: Objects, copies: Objects, own: set<object>)
    reads Refs(m), Refs(copies)
  {
    forall k :: k in copies ==> k in m && SameElementClocks(m[k], copies[k]) && TimestampOf(copies[k]) in own
  }

  lemma ExtendCopies(m: Objects, copies: Objects, own: set<object>, key: string, copy: CRDT)
    requires Copies(m, copies, own) && key in m && SameElementClocks(m[key], copy)
    ensures Copies(m, copies[key := copy], own + (Own(copy) + {TimestampOf(copy)}))
  {
  }

  twostate lemma StillCopies(x: (Objects, Objects, set<object>, set<object>))
    requires x.3 == Refs(x.0) + Refs(x.1) && unchanged(x.3) && old(Copies(x.0, x.1, x.2))
    ensures Copies(x.0, x.1, x.2)
  {
  }

  method CopyBeside(m: Objects, ghost st: StoreState, ghost result: Objects, ghost copied: StoreState,
                    ghost own: set<object>,
                    key: string, ghost v: ObjectState) returns (copy: CRDT)
    requires Denotes(m, st) && key in m && v == WithKey(ObjectStateOf(m[key]), key)
    requires Denotes(result, copied) && Owned(result, own) && Copies(m, result, own)
    ensures Denotes(m, st) && Denotes(result, copied) && Owned(result, own) && Copies(m, result, own)
    ensures ValidObject(copy) && ObjectStateOf(copy) == v && fresh(Own(copy))
    ensures SameElementClocks(m[key], copy) && fresh(TimestampOf(copy))
  {
    ghost var ours, theirs, refs := Extent(m), Extent(result), Refs(m) + Refs(result);
    copy := CopyCRDT(m[key], key);
    StillCopies((m, result, own, refs));
    StillDenotes((m, st, ours));
    Undisturbed((result, copied, own, theirs));
  }

  lemma Extend(m: Objects, st: StoreState, own: set<object>, key: string, o: CRDT, v: ObjectState)
    requires Denotes(m, st) && Owned(m, own) && own !! Own(o) && ValidObject(o) && ObjectStateOf(o) == v
    ensures Denotes(m[key := o], st[key := v]) && Owned(m[key := o], own + Own(o))
  {
    OwnedApart(m, own, o);
    ExtendValid(m, key, o);
    ExtendState(m, key, o);
    ExtendOwned(m, key, o, own);
  }

  lemma OwnedApart(m: Objects, own: set<object>, o: CRDT)
    requires Owned(m, own) && own !! Own(o)
    ensures forall k :: k in m ==> Own(m[k]) !! Own(o)
  {
  }

  twostate lemma Undisturbed(x: (Objects, StoreState, set<object>, set<object>))
    requires x.3 == old(Extent(x.0)) && unchanged(x.3) && old(Denotes(x.0, x.1)) && old(Owned(x.0, x.2))
    ensures Denotes(x.0, x.1) && Owned(x.0, x.2)
  {
  }

  lemma Remaining(st: StoreState, todo: set<string>, key: string)
    requires key in todo && key in st
    ensures st - (todo - {key}) == (st - todo)[key := st[key]]
  {
  }

  lemma ExportAt(m: Objects, all: StoreState)
    requires ValidObjects(m) && all == Export(StateOf(m))
    ensures all.Keys == m.Keys && forall k :: k in m ==> ValidObject(m[k]) && all[k] == WithKey(ObjectStateOf(m[k]), k)
  {
  }

  lemma NoObjects(all: StoreState)
    ensures StateOf(map[]) == all - all.Keys && ValidObjects(map[])
  {
  }

  /** The export loop, over the keys in any order. */
  method ExportObjects(m: Objects, ghost st: StoreState) returns (result: Objects, ghost own: set<object>)
    requires Denotes(m, st)
    ensures Denotes(result, Export(st)) && Owned(result, own) && fresh(own) && Copies(m, result, own)
  {
    ghost var all := Export(st);
    own := {};
    ExportAt(m, all);
    NoObjects(all);
    result := map[];
    var todo := m.Keys;
    while todo != {}
      invariant todo <= m.Keys && result.Keys == m.Keys - todo
      invariant Denotes(m, st) && Denotes(result, all - todo)
      invariant Owned(result, own) && fresh(own) && Copies(m, result, own)
    {
      var key :| key in todo;
      Remaining(all, todo, key);
      ghost var copied := all - todo;
      todo := todo - {key};
      assert all[key] == WithKey(ObjectStateOf(m[key]), key);
      result, own := CopyInto(m, st, result, copied, own, key, all - todo);
    }
  }

  /** Prune the clocks of every object in place, over the keys in any order. */
  method PruneObjects(m: Objects, ghost reach: set<VectorClock>, active: set<string>)
    requires forall k :: k in m ==> ClocksOf(m[k]) <= reach
    modifies reach
    ensures forall c :: c in reach ==> c.entries == old(c.entries) || c.entries == Restrict(old(c.entries), active)
    ensures forall k :: k in m ==> AllPruned(ClocksOf(m[k]), active)
  {
    ghost var done: set<VectorClock> := {};
    var todo := m.Keys;
    while todo != {}
      invariant todo <= m.Keys
      invariant forall k :: k in m ==> ClocksOf(m[k]) <= if k in todo then reach else done
      invariant forall c :: c in reach ==> c.entries == old(c.entries) || c.entries == Restrict(old(c.entries), active)
      invariant done <= reach && AllPruned(done, active)
    {
      var key :| key in todo;
      todo := todo - {key};
      forall c | c in reach
        ensures Restrict(Restrict(old(c.entries), active), active) == Restrict(old(c.entries), active) {
        RestrictTwice(old(c.entries), active);
      }
      ghost var cells := ClocksOf(m[key]);
      label before:
      PruneKey(m, key, active);
      done := done + cells;
      forall c | c in reach
        ensures c.entries == if c in cells then Restrict(old(c.entries), active) else old@before(c.entries) {
        if c in cells { assert c.entries == Restrict(old@before(c.entries), active); }
      }
    }
  }

  method PruneKey(m: Objects, key: string, active: set<string>)
    requires key in m
    modifies ClocksOf(m[key])
    ensures forall k :: k in m ==> ClocksOf(m[k]) == old(ClocksOf(m[k]))
    ensures forall c :: c in ClocksOf(m[key]) ==> c.entries == Restrict(old(c.entries), active)
  {
    PruneCRDT(m[key], active);
    forall k | k in m ensures ClocksOf(m[k]) == old(ClocksOf(m[k])) {
      assert forall c :: c in old(ClocksOf(m[key])) ==> c as object != Ref(m[k]);
    }
  }

  /** All objects then read as their pruned values, and no clock has grown. */
  method PruneState(m: Objects, ghost reach: set<VectorClock>, active: set<string>)
    requires ValidObjects(m) && forall k :: k in m ==> ClocksOf(m[k]) <= reach
    modifies reach
    ensures StateOf(m) == PrunedStore(old(StateOf(m)), active)
    ensures forall k :: k in m ==> AllPruned(ClocksOf(m[k]), active)
    ensures forall c :: c in reach ==> c.entries == old(c.entries) || c.entries == Restrict(old(c.entries), active)
  {
    ghost var was := StateOf(m);
    PruneObjects(m, reach, active);
    forall k | k in m ensures ObjectStateOf(m[k]) == Pruned(was[k], active) {
      assert AllPruned(ClocksOf(m[k]), active);
      assert forall c :: c in reach ==> c as object != Ref(m[k]);
      assert ReadsPruned(m[k], was[k], active);
      PrunedReads(m[k], was[k], active);
    }
    StateIs(m, PrunedStore(was, active));
  }

  lemma ClocksAreNotObjects(m: Objects, reach: set<VectorClock>)
    ensures forall c :: c in reach ==> c as object !in Refs(m)
  {
  }

  lemma StateIs(m: Objects, st: StoreState)
    requires st.Keys == m.Keys && forall k :: k in m ==> ObjectStateOf(m[k]) == st[k]
    ensures StateOf(m) == st
  {
  }

  twostate predicate AllPruned(cells: set<VectorClock>, active: set<string>)
    reads cells
  {
    forall c :: c in cells ==> c.entries == Restrict(old(c.entries), active)
  }

  twostate lemma ReachPruned(x: (Objects, set<string>))
    requires unchanged(Refs(x.0)) && forall k :: k in x.0 ==> AllPruned(ClocksOf(x.0[k]), x.1)
    ensures Reach(x.0) == old(Reach(x.0)) && AllPruned(Reach(x.0), x.1)
  {
  }

  lemma PerformInto(st: StoreState, op: Operation, made: StoreState)
    requires !op.kind.OpUnknown?
    requires made == if op.key in st then st else st[op.key := NewObject(op)]
    requires made[op.key].ASet? == NewObject(op).ASet?
    ensures Perform(st, op) == Some(made[op.key := ObjectAfter(made[op.key], op)])
  {
    if op.key !in st {
      assert made[op.key := ObjectAfter(made[op.key], op)] == st[op.key := ObjectAfter(made[op.key], op)];
    }
  }

  class MemStore {
    var objects: Objects
    const ops: OpHeap
    var totalOpsAppended: nat
    var totalOpsEvicted: nat
    /** All operations accepted so far, and those of them already evicted. */
    ghost var history: seq<Op>
    ghost var gone: seq<Op>
    /** Everything applying operations may change. */
    ghost var Repr: set<object>

    /** The store's objects do not overlap, and Repr holds what they own. */
    ghost predicate ValidParts()
      reads this, Refs(objects)
    {
      && ValidObjects(objects)
      && (forall k :: k in objects ==> Own(objects[k]) <= Repr)
      && (forall c: VectorClock :: c in Repr ==> c.ticking)
      && this !in Repr && ops !in Repr
    }

    /** The queue and the history agree; queued clocks are never ticked. */
    ghost predicate ValidLog()
      reads this, ops, ops.clocks
    {
      && ops.Valid()
      && gone + ops.ops == history && ClocksIn(history) <= ops.clocks
      && totalOpsAppended == |history| && totalOpsEvicted == |gone|
    }

    ghost predicate Valid()
      reads this, ops, Refs(objects), ops.clocks
    {
      ValidParts() && ValidLog()
    }

    ghost function View(): StoreState
      reads this, Refs(objects), Reach(objects)
    {
      StateOf(objects)
    }

    /** The accepted operations and the queue have these values. */
    ghost predicate LogIs(log: seq<Operation>, queue: seq<Operation>)
      reads this, ops, ClocksIn(history), ClocksIn(ops.ops)
    {
      States(history) == log && States(ops.ops) == queue
    }

    /** What the recorded bytes exceed the queue's present size by. */
    ghost function Slack(): int
      reads this, ops, ClocksIn(ops.ops)
    {
      ops.bytes - Footprint(States(ops.ops))
    }

    /** Replaying the accepted operations, evicted and queued, reproduces the store. */
    ghost predicate Replays()
      reads this, Refs(objects), Reach(objects), ClocksIn(history)
    {
      Replay(map[], States(history)) == Some(View())
    }

    constructor (maxBytes: int)
      ensures Valid() && objects == map[] && history == [] && ops.capBytes == maxBytes && fresh(ops) && Repr == {}
      ensures Slack() == 0 && Replays()
    {
      objects := map[];
      ops := new OpHeap(maxBytes);
      totalOpsAppended, totalOpsEvicted := 0, 0;
      history, gone, Repr := [], [], {};
    }

    /** Take what an object owns into Repr. */
    ghost method Claim(o: CRDT)
      requires ValidObjects(objects) && this !in Own(o) && ops !in Own(o) && this !in Repr && ops !in Repr
      requires forall k :: k in objects ==> Own(objects[k]) <= Repr + Own(o)
      requires ValidObject(o) && forall c: VectorClock :: c in Repr ==> c.ticking
      modifies `Repr
      ensures ValidParts() && Repr == old(Repr) + Own(o) && View() == old(View())
    {
      assert this !in Refs(objects);
      Repr := Repr + Own(o);
    }

    /** objects[key] = o, for an object that owns nothing in common with the others. */
    method Put(key: string, o: CRDT)
      requires ValidParts() && ValidObject(o) && ops !in Own(o) && this !in Own(o)
      requires forall k :: k in objects && k != key ==> Own(objects[k]) !! Own(o)
      modifies `objects, `Repr
      ensures ValidParts() && objects == old(objects)[key := o] && Repr == old(Repr) + Own(o)
      ensures View() == old(View())[key := old(ObjectStateOf(o))]
    {
      ghost var st := View()[key := ObjectStateOf(o)];
      ExtendValid(objects, key, o);
      ExtendState(objects, key, o);
      Install(objects[key := o], st);
      Claim(o);
    }

    method Install(extended: Objects, ghost st: StoreState)
      requires ValidObjects(extended) && StateOf(extended) == st
      modifies `objects
      ensures objects == extended && ValidObjects(objects) && View() == st
    {
      ghost var extent := Extent(extended);
      NoStores(extended, this);
      objects := extended;
      StillDenotes((extended, st, extent));
    }

    method GetOrCreateSet(key: string) returns (s: LWWSet?)
      requires ValidParts()
      modifies `objects, `Repr
      ensures ValidParts() && fresh(Repr - old(Repr))
      ensures key in old(objects) ==>
        objects == old(objects) && (s == null <==> objects[key].CounterRef?)
        && (s != null ==> objects[key] == SetRef(s))
      ensures key !in old(objects) ==> s != null && objects == old(objects)[key := SetRef(s)]
      ensures View() == if key in old(objects) then old(View()) else old(View())[key := ASet(NewSet(key))]
    {
      if key !in objects {
        s := new LWWSet(key);
        assert View() == old(View()) && s.State() == NewSet(key);
        Put(key, SetRef(s));
      } else {
        match objects[key]
        case SetRef(lww) => s := lww;
        case CounterRef(_) => s := null;
      }
    }

    method GetOrCreateCounter(key: string) returns (c: Counter?)
      requires ValidParts()
      modifies `objects, `Repr
      ensures ValidParts() && fresh(Repr - old(Repr))
      ensures key in old(objects) ==>
        objects == old(objects) && (c == null <==> objects[key].SetRef?)
        && (c != null ==> objects[key] == CounterRef(c))
      ensures key !in old(objects) ==> c != null && objects == old(objects)[key := CounterRef(c)]
      ensures View() == if key in old(objects) then old(View()) else old(View())[key := ACounter(NewCounter(key))]
    {
      if key !in objects {
        c := new Counter(key);
        assert View() == old(View()) && c.State() == NewCounter(key);
        Put(key, CounterRef(c));
      } else {
        match objects[key]
        case SetRef(_) => c := null;
        case CounterRef(counter) => c := counter;
      }
    }

    /** Both getOrCreate methods, chosen by the operation's kind. */
    method GetOrCreate(op: Op) returns (ok: bool)
      requires ValidParts() && !op.kind.OpUnknown?
      modifies `objects, `Repr
      ensures ValidParts() && fresh(Repr - old(Repr))
      ensures ok <==> (op.key in old(objects) ==> (op.kind == OpCounterInc <==> old(objects)[op.key].CounterRef?))
      ensures ok ==> op.key in objects && (op.kind == OpCounterInc <==> objects[op.key].CounterRef?)
      ensures !ok ==> objects == old(objects)
      ensures View() == if op.key in old(objects) then old(View()) else old(View()[op.key := NewObject(OpState(op))])
    {
      if op.kind == OpCounterInc {
        var cnt := GetOrCreateCounter(op.key);
        ok := cnt != null;
      } else {
        var lww := GetOrCreateSet(op.key);
        ok := lww != null;
      }
    }

    /** The switch of `AppendOp`: find or create the object, and apply the operation to it. */
    method ApplyOp(op: Op) returns (ok: bool)
      requires ValidParts() && (op.ts != null ==> !op.ts.ticking)
      modifies `objects, `Repr, Repr
      ensures ValidParts() && fresh(Repr - old(Repr))
      ensures ok <==> old(Perform(View(), OpState(op))).Some?
      ensures View() == if ok then old(Perform(View(), OpState(op))).value else old(View())
    {
      if op.kind.OpUnknown? { return true; }
      ghost var st, value := View(), OpState(op);
      ok := GetOrCreate(op);
      if ok {
        PerformInto(st, value, View());
        ApplyFound(op);
      }
    }

    method ApplyFound(op: Op)
      requires ValidParts() && op.key in objects && (op.ts != null ==> !op.ts.ticking)
      requires !op.kind.OpUnknown? && (op.kind == OpCounterInc <==> objects[op.key].CounterRef?)
      modifies `Repr, Own(objects[op.key])
      ensures ValidParts() && fresh(Repr - old(Repr))
      ensures View() == old(View()[op.key := ObjectAfter(View()[op.key], OpState(op))])
    {
      TouchIn(objects, op);
      assert forall k :: k in objects && k != op.key ==> Own(objects[k]) <= Repr;
      Claim(objects[op.key]);
    }

    /** Apply the operation to its object and queue it, or reject it and change nothing. */
    method AppendOp(op: Op) returns (ok: bool, ghost evicted: nat)
      requires Valid() && (op.ts != null ==> !op.ts.ticking)
      modifies this, ops, Repr
      ensures Valid() && fresh(Repr - old(Repr))
      ensures ok <==> old(Perform(View(), OpState(op))).Some?
      ensures View() == if ok then old(Perform(View(), OpState(op))).value else old(View())
      ensures ok ==> history == old(history) + [op] && States(history) == old(States(history)) + [old(OpState(op))]
      ensures ok ==> |gone| == |old(gone)| + evicted
                     && Appended(old(States(ops.ops)), old(ops.bytes), old(OpState(op)), ops.capBytes,
                                 evicted, States(ops.ops), ops.bytes)
      ensures !ok ==> history == old(history) && gone == old(gone) && ops.ops == old(ops.ops)
                      && ops.bytes == old(ops.bytes)
      ensures !ok ==> States(history) == old(States(history)) && States(ops.ops) == old(States(ops.ops))
      ensures Slack() == old(Slack()) && (old(Replays()) ==> Replays())
      ensures gone + ops.ops == history && totalOpsAppended == |history| && totalOpsEvicted == |gone|
    {
      ghost var queue, v, bytes := States(ops.ops), OpState(op), ops.bytes;
      ok, evicted := AppendValues(op, States(history), queue, v, View());
      if ok { SlackKept(queue, bytes, v, ops.capBytes, evicted, States(ops.ops), ops.bytes); }
    }

    method AppendValues(op: Op, ghost log: seq<Operation>, ghost queue: seq<Operation>, ghost v: Operation,
                        ghost st: StoreState)
      returns (ok: bool, ghost evicted: nat)
      requires Valid() && (op.ts != null ==> !op.ts.ticking) && LogIs(log, queue) && OpState(op) == v && View() == st
      modifies this, ops, Repr
      ensures Valid() && fresh(Repr - old(Repr))
      ensures ok <==> Perform(st, v).Some?
      ensures View() == if ok then Perform(st, v).value else st
      ensures States(history) == if ok then log + [v] else log
      ensures ok ==> history == old(history) + [op] && |gone| == |old(gone)| + evicted
                     && Appended(queue, old(ops.bytes), v, ops.capBytes, evicted, States(ops.ops), ops.bytes)
      ensures !ok ==> history == old(history) && gone == old(gone) && ops.ops == old(ops.ops)
                      && ops.bytes == old(ops.bytes)
                      && States(ops.ops) == queue
      ensures Replay(map[], log) == Some(st) ==> Replay(map[], States(history)) == Some(View())
    {
      ReplayNext(log, st, v);
      ok := ApplyBeside(op, log, queue, v);
      evicted := 0;
      if ok { evicted := Enqueue(op, log, queue, v); }
    }

    /** Applying ticks no clock of a recorded operation. */
    method ApplyBeside(op: Op, ghost log: seq<Operation>, ghost queue: seq<Operation>, ghost v: Operation)
        returns (ok: bool)
      requires Valid() && (op.ts != null ==> !op.ts.ticking) && LogIs(log, queue) && OpState(op) == v
      modifies `objects, `Repr, Repr
      ensures Valid() && fresh(Repr - old(Repr)) && LogIs(log, queue) && OpState(op) == v
      ensures ok <==> old(Perform(View(), v)).Some?
      ensures View() == if ok then old(Perform(View(), v)).value else old(View())
    {
      ghost var clocks := ops.clocks;
      assert forall c :: c in clocks ==> c !in Repr;
      ok := ApplyOp(op);
      StillStates((history, log, ClocksIn(history)));
      StillStates((ops.ops, queue, ClocksIn(ops.ops)));
      assert ops.Valid();
    }

    /** The second half of `AppendOp`: queue, evict, hand over what was evicted, count. */
    method Enqueue(op: Op, ghost log: seq<Operation>, ghost queue: seq<Operation>, ghost v: Operation)
        returns (ghost evicted: nat)
      requires Valid() && (op.ts != null ==> !op.ts.ticking) && LogIs(log, queue) && OpState(op) == v
      modifies ops, `totalOpsAppended, `totalOpsEvicted, `history, `gone
      ensures Valid() && View() == old(View()) && history == old(history) + [op] && States(history) == log + [v]
      ensures |gone| == |old(gone)| + evicted
        && Appended(queue, old(ops.bytes), v, ops.capBytes, evicted, States(ops.ops), ops.bytes)
    {
      ghost var st, extent := View(), Extent(objects);
      assert this !in extent && ops !in extent;
      evicted := EnqueueLog(op, log, queue, v);
      StillParts((this, st, extent));
    }

    method EnqueueLog(op: Op, ghost log: seq<Operation>, ghost queue: seq<Operation>, ghost v: Operation)
        returns (ghost evicted: nat)
      requires ValidLog() && (op.ts != null ==> !op.ts.ticking) && LogIs(log, queue) && OpState(op) == v
      modifies ops, `totalOpsAppended, `totalOpsEvicted, `history, `gone
      ensures ValidLog() && history == old(history) + [op] && States(history) == log + [v]
      ensures |gone| == |old(gone)| + evicted
        && Appended(queue, old(ops.bytes), v, ops.capBytes, evicted, States(ops.ops), ops.bytes)
    {
      ghost var accepted := history + [op];
      StatesPush(history, op);
      ClocksPush(history, op);
      assert ClocksIn(accepted) <= ops.clocks + if op.ts == null then {} else {op.ts};
      var dropped := AppendQueue(op, accepted, log + [v], queue, v);
      evicted := |dropped|;
      Regroup(gone, dropped, ops.ops, old(ops.ops), op);
      ghost var left := States(ops.ops);
      Count(op, dropped, accepted, log + [v], left);
    }

    method AppendQueue(op: Op, ghost accepted: seq<Op>, ghost log: seq<Operation>, ghost queue: seq<Operation>,
                       ghost v: Operation)
      returns (evicted: seq<Op>)
      requires ops.Valid() && (op.ts != null ==> !op.ts.ticking) && OpState(op) == v
      requires States(accepted) == log && States(ops.ops) == queue
      modifies ops
      ensures ops.Valid() && ops.clocks == old(ops.clocks) + if op.ts == null then {} else {op.ts}
      ensures evicted + ops.ops == old(ops.ops) + [op] && States(accepted) == log
      ensures Appended(queue, old(ops.bytes), v, ops.capBytes, |evicted|, States(ops.ops), ops.bytes)
    {
      evicted := ops.Append(op);
      StillStates((accepted, log, ClocksIn(accepted)));
    }

    /** Hand the evicted operations over and update the metrics. */
    method Count(op: Op, evicted: seq<Op>, ghost accepted: seq<Op>, ghost log: seq<Operation>,
                 ghost queue: seq<Operation>)
      requires accepted == history + [op] && States(accepted) == log && States(ops.ops) == queue
      requires ops.Valid() && (gone + evicted) + ops.ops == accepted && ClocksIn(accepted) <= ops.clocks
      requires totalOpsAppended == |history| && totalOpsEvicted == |gone|
      modifies `totalOpsAppended, `totalOpsEvicted, `history, `gone
      ensures ValidLog() && history == accepted && gone == old(gone) + evicted
      ensures States(history) == log && States(ops.ops) == queue
    {
      ghost var left := ops.ops;
      assert forall c :: c in ops.clocks ==> c as object != this;
      assert forall c :: c in ClocksIn(accepted) + ClocksIn(left) ==> c as object != this;
      if |evicted| > 0 {
        totalOpsEvicted := totalOpsEvicted + |evicted|;
      }
      totalOpsAppended := totalOpsAppended + 1;
      history, gone := accepted, gone + evicted;
      StillStates((accepted, log, ClocksIn(accepted)));
      StillStates((left, queue, ClocksIn(left)));
    }

    // ---- Reading ----

    method GetSetElements(key: string) returns (elems: Option<seq<string>>)
      requires Valid()
      ensures elems.Some? <==> key in View() && View()[key].ASet?
      ensures elems.Some? ==> Lists(elems.value, VisibleElements(View()[key].s))
    {
      if key !in objects || !objects[key].SetRef? { return None; }
      var list := objects[key].lww.GetElements();
      elems := Some(list);
    }

    method GetCounterValue(key: string) returns (value: Option<nat>)
      requires Valid()
      ensures value.Some? <==> key in View() && View()[key].ACounter?
      ensures value.Some? ==> value.value == Wrap(Sum(View()[key].c.counters))
    {
      if key !in objects || !objects[key].CounterRef? { return None; }
      var total := objects[key].counter.Value();
      value := Some(total);
    }

    method GetActiveNodes() returns (nodes: set<string>)
      requires Valid()
      ensures nodes == ActiveNodes(View())
    {
      ghost var st := View();
      nodes := {};
      var todo := objects.Keys;
      while todo != {}
        invariant todo <= objects.Keys && nodes == NodesBut(st, todo)
      {
        var k :| k in todo;
        NodesNext(st, todo, k);
        todo := todo - {k};
        assert st[k] == ObjectStateOf(objects[k]);
        var more := CollectNodesOf(objects[k]);
        nodes := nodes + more;
      }
    }

    // ---- Exchange ----

    /** New objects with copies of everything but the element clocks, which stay shared. */
    method GetAllCRDTs() returns (result: Objects, ghost own: set<object>)
      requires ValidParts()
      ensures Denotes(result, old(Export(View()))) && Owned(result, own) && fresh(own) && Copies(objects, result, own)
    {
      result, own := ExportObjects(objects, View());
    }

    /** Install an object that overlaps with none of the others; what was there is dropped. Snapshots in
        use, such as ours and theirs, stay as they are. */
    method ApplyMergedCRDT(key: string, o: CRDT, ghost ours: Objects, ghost a: StoreState, ghost theirs: Objects,
                           ghost b: StoreState)
      requires Valid() && ValidObject(o)
      requires forall k :: k in objects && k != key ==> Own(objects[k]) !! Own(o)
      requires Denotes(ours, a) && Denotes(theirs, b)
      modifies `objects, `Repr
      ensures Valid() && objects == old(objects)[key := o] && Repr == old(Repr) + Own(o)
      ensures View() == old(View())[key := old(ObjectStateOf(o))]
      ensures Denotes(ours, a) && Denotes(theirs, b)
    {
      ghost var st, repr := View()[key := ObjectStateOf(o)], Repr + Own(o);
      ExtendValid(objects, key, o);
      ExtendState(objects, key, o);
      ExtendOwned(objects, key, o, Repr);
      assert this !in Own(o) && ops !in Own(o);
      Exchange(objects[key := o], repr, st, ours, a, theirs, b);
      assert Owned(objects, repr);
    }

    method Exchange(m: Objects, ghost repr: set<object>, ghost st: StoreState,
                    ghost ours: Objects, ghost a: StoreState, ghost theirs: Objects, ghost b: StoreState)
      requires Denotes(m, st) && Denotes(ours, a) && Denotes(theirs, b) && ValidLog()
      modifies `objects, `Repr
      ensures objects == m && Repr == repr && ValidLog()
      ensures Denotes(m, st) && Denotes(ours, a) && Denotes(theirs, b)
    {
      NoStores(ours, this);
      NoStores(theirs, this);
      NoStores(m, this);
      assert forall c :: c in ops.clocks ==> c as object != this;
      objects, Repr := m, repr;
    }

    // ---- Pruning ----

    /** Forget inactive nodes in every clock of every object, in place. Queued operations and exported
        snapshots that share these clocks shrink with them; the recorded bytes stay. */
    method PruneVectorClocks(active: set<string>)
      requires Valid()
      modifies Reach(objects)
      ensures Valid() && View() == PrunedStore(old(View()), active)
      ensures Slack() >= old(Slack())
      ensures Reach(objects) == old(Reach(objects)) && AllPruned(Reach(objects), active)
    {
      ghost var queued := States(ops.ops);
      MirrorsStates(ops.ops, queued);
      ClocksAreNotObjects(objects, Reach(objects));
      PruneState(objects, Reach(objects), active);
      ReachPruned((objects, active));
      assert ValidParts();
      QueueShrunk((ops.ops, queued));
    }
  }

  /** The nodes in the clocks of all objects but those under the given keys. */
  ghost function NodesBut(st: StoreState, todo: set<string>): set<string> {
    set k, n | k in st && k !in todo && n in NodesOf(st[k]) :: n
  }

  lemma NodesNext(st: StoreState, todo: set<string>, k: string)
    requires k in todo && k in st
    ensures NodesBut(st, todo - {k}) == NodesBut(st, todo) + NodesOf(st[k])
  {
  }

  /** What touches neither the objects nor their clocks leaves the store as it is. */
  twostate lemma StillParts(x: (MemStore, StoreState, set<object>))
    requires old(x.0.ValidParts()) && old(x.0.View()) == x.1 && x.2 == old(Extent(x.0.objects)) && unchanged(x.2)
    requires x.0.objects == old(x.0.objects) && x.0.Repr == old(x.0.Repr)
    ensures x.0.ValidParts() && x.0.View() == x.1
  {
  }

  /** Objects and clocks are not stores. */
  lemma NoStores(m: Objects, mem: MemStore)
    ensures mem !in Refs(m) && forall c :: c in Reach(m) ==> c as object != mem
  {
  }

  /** Operations whose clocks have lost entries take no more space. */
  twostate lemma QueueShrunk(x: (seq<Op>, seq<Operation>))
    requires old(Mirrors(x.0, x.1))
    requires forall c :: c in ClocksIn(x.0) ==> forall n :: n in c.entries ==> n in old(c.entries)
    ensures Footprint(States(x.0)) <= Footprint(x.1)
  {
    var ops, before := x.0, x.1;
    forall i | 0 <= i < |ops| ensures Shrunk(before[i], OpState(ops[i])) {
      assert before[i] == old(OpState(ops[i]));
    }
    MirrorsStates(ops, States(ops));
    OldestShrinks(before, States(ops), |ops|);
  }

  lemma Regroup(gone: seq<Op>, evicted: seq<Op>, left: seq<Op>, queue: seq<Op>, op: Op)
    requires evicted + left == queue + [op]
    ensures (gone + evicted) + left == (gone + queue) + [op]
  {
    assert (gone + evicted) + left == gone + (evicted + left);
    assert (gone + queue) + [op] == gone + (queue + [op]);
  }
}
