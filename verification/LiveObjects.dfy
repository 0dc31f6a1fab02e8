/** The mutable set and counter objects and maps of them, each read as a value of module Crdts. */
module LiveObjects {
  import opened Strings
  import opened Clocks
  import opened Crdts
  import opened VectorClocks

  type ClockRefs = map<string, VectorClock>

  function Entries(m: ClockRefs): ClockMap
    reads m.Values
  {
    map e | e in m :: m[e].entries
  }

  lemma EntriesUpdate(m: ClockRefs, e: string, ts: VectorClock)
    ensures Entries(m[e := ts]) == Entries(m)[e := ts.entries]
  {
  }

  ghost predicate Recorded(m: ClockRefs) {
    forall e :: e in m ==> !m[e].ticking
  }

  class LWWSet {
    const Key: string
    var Adds: ClockRefs
    var Removes: ClockRefs
    var Timestamp: VectorClock

    ghost predicate Valid()
      reads this
    {
      Recorded(Adds) && Recorded(Removes) && !Timestamp.ticking
    }

    function State(): SetState
      reads this, Adds.Values, Removes.Values, Timestamp
    {
      SetState(Key, Entries(Adds), Entries(Removes), Timestamp.entries)
    }

    constructor (key: string)
      ensures Valid() && Key == key && State() == NewSet(key) && fresh(Timestamp)
      ensures Adds == map[] && Removes == map[]
    {
      Key := key;
      Adds, Removes := map[], map[];
      Timestamp := new VectorClock(map[], false);
    }

    constructor Holding(key: string, adds: ClockRefs, removes: ClockRefs, timestamp: VectorClock)
      requires Recorded(adds) && Recorded(removes) && !timestamp.ticking
      ensures Valid() && State() == SetState(key, Entries(adds), Entries(removes), timestamp.entries)
      ensures Adds == adds && Removes == removes && Timestamp == timestamp
    {
      Key, Adds, Removes, Timestamp := key, adds, removes, timestamp;
    }

    /** Remember ts as the clock of the last add or remove of the element, and the new timestamp. */
    method Record(element: string, isAdd: bool, ts: VectorClock, timestamp: VectorClock)
      requires Valid() && !ts.ticking && !timestamp.ticking
      modifies this
      ensures Valid() && Timestamp == timestamp
      ensures State() == Recording(old(State()), element, isAdd, ts.entries, timestamp.entries)
    {
      if isAdd {
        EntriesUpdate(Adds, element, ts);
        Adds := Adds[element := ts];
      } else {
        EntriesUpdate(Removes, element, ts);
        Removes := Removes[element := ts];
      }
      Timestamp := timestamp;
    }

    /** The set's own Add and Remove: the new clock becomes the element's and the set's at once. */
    method ApplyOp(nodeID: string, element: string, isAdd: bool)
      requires Valid()
      modifies this
      ensures Valid()
      ensures State() == SetAfter(old(State()),
                                  Operation(if isAdd then OpAdd else OpRemove, Key, nodeID, element, 0, map[]))
    {
      var ts := new VectorClock(Timestamp.entries, false);
      ts.Increment(nodeID);
      BumpIsAbove(Timestamp.entries, nodeID);
      LubAbsorbs(Timestamp.entries, ts.entries);
      assert State() == old(State());
      Record(element, isAdd, ts, ts);
    }

    method StampFor(nodeID: string, supplied: VectorClock?) returns (ts: VectorClock)
      requires Valid() && (supplied != null ==> !supplied.ticking)
      ensures !ts.ticking
      ensures ts.entries == Stamp(Timestamp.entries, nodeID, if supplied == null then map[] else supplied.entries)
    {
      if supplied == null || supplied.entries == map[] {
        ts := new VectorClock(Timestamp.entries, false);
        ts.Increment(nodeID);
      } else {
        ts := supplied;
      }
    }

    /** `applySetOp`: record the supplied clock, or a ticked copy of the set's own. */
    method ApplySetOp(nodeID: string, element: string, isAdd: bool, supplied: VectorClock?)
      requires Valid() && (supplied != null ==> !supplied.ticking)
      modifies this
      ensures Valid() && fresh(Timestamp)
      ensures State() == old(SetAfter(State(), Operation(if isAdd then OpAdd else OpRemove, Key, nodeID, element, 0,
                                                         if supplied == null then map[] else supplied.entries)))
    {
      var ts := StampFor(nodeID, supplied);
      var timestamp := Timestamp.Merge(ts, false);
      assert State() == old(State());
      Record(element, isAdd, ts, timestamp);
    }

    method Contains(element: string) returns (visible: bool)
      ensures visible == Visible(State(), element)
    {
      if element !in Adds { return false; }
      if element !in Removes { return true; }
      OrderLaws(Adds[element].entries, Removes[element].entries, Adds[element].entries);
      var c := Adds[element].Compare(Removes[element]);
      return c > 0;
    }

    /** The visible elements, sorted. */
    method GetElements() returns (elems: seq<string>)
      ensures Lists(elems, VisibleElements(State()))
    {
      elems := [];
      var todo := Adds.Keys;
      while todo != {}
        invariant todo <= Adds.Keys
        invariant Lists(elems, VisibleElements(State()) - todo)
      {
        var el :| el in todo;
        var visible := Contains(el);
        ghost var before := VisibleElements(State()) - todo;
        todo := todo - {el};
        if visible {
          elems := InsertSorted(elems, el, before);
          assert before + {el} == VisibleElements(State()) - todo;
        } else {
          assert before == VisibleElements(State()) - todo;
        }
      }
    }

    /** Merge into a new set that shares the element clocks it keeps with both sides. */
    method Merge(other: CRDT) returns (res: Option<CRDT>)
      requires Valid() && ValidObject(other)
      ensures res.Some? <==> Mergeable(ASet(State()), ObjectStateOf(other))
      ensures res.Some? ==> fresh(Own(res.value)) && ValidObject(res.value)
                            && MergeOf(ASet(State()), ObjectStateOf(other), ObjectStateOf(res.value))
      ensures res.Some? ==> other.SetRef? && KeepsClocks(this, other.lww, res.value)
    {
      if !other.SetRef? || Key != other.lww.Key { return None; }
      var r := MergeSameKey(other.lww);
      res := Some(SetRef(r));
    }

    method MergeSameKey(o: LWWSet) returns (r: LWWSet)
      requires Valid() && o.Valid() && Key == o.Key
      ensures fresh(r) && r.Valid() && MergeOf(ASet(State()), ASet(o.State()), ASet(r.State()))
      ensures KeepsClocks(this, o, SetRef(r))
    {
      ghost var a, b := State(), o.State();
      var adds, removes := MergeParts(o, a, b);
      r := WithMerged(o, a, b, adds, removes);
    }

    method WithMerged(o: LWWSet, ghost a: SetState, ghost b: SetState, adds: ClockRefs, removes: ClockRefs)
      returns (r: LWWSet)
      requires State() == a && o.State() == b && Key == o.Key && Recorded(adds) && Recorded(removes)
      requires ClockMapMerge(a.adds, b.adds, Entries(adds)) && ClockMapMerge(a.removes, b.removes, Entries(removes))
      requires !Timestamp.ticking && !o.Timestamp.ticking
      ensures fresh(r) && r.Valid() && r.Adds == adds && r.Removes == removes
      ensures State() == a && o.State() == b && MergeOf(ASet(a), ASet(b), ASet(r.State()))
    {
      ghost var added, removed := Entries(adds), Entries(removes);
      var timestamp := Timestamp.Merge(o.Timestamp, false);
      r := new LWWSet.Holding(Key, adds, removes, timestamp);
      PartsMerge(a, b, added, removed);
    }

    method MergeParts(o: LWWSet, ghost a: SetState, ghost b: SetState) returns (adds: ClockRefs, removes: ClockRefs)
      requires Valid() && o.Valid() && Key == o.Key && State() == a && o.State() == b
      ensures Recorded(adds) && Recorded(removes) && State() == a && o.State() == b
      ensures KeptFrom(Adds, o.Adds, adds) && KeptFrom(Removes, o.Removes, removes)
      ensures ClockMapMerge(a.adds, b.adds, Entries(adds)) && ClockMapMerge(a.removes, b.removes, Entries(removes))
    {
      ghost var extent := {this, o} + ClocksOf(SetRef(this)) + ClocksOf(SetRef(o));
      adds := MergeClocks(Adds, o.Adds);
      StillSets((this, o, a, b, extent));
      ghost var added := Entries(adds);
      removes := MergeClocks(Removes, o.Removes);
      StillSets((this, o, a, b, extent));
    }
  }

  /** Sets that nobody touches keep their values. */
  twostate lemma StillSets(x: (LWWSet, LWWSet, SetState, SetState, set<object>))
    requires x.4 == old({x.0, x.1} + ClocksOf(SetRef(x.0)) + ClocksOf(SetRef(x.1))) && unchanged(x.4)
    requires old(x.0.State()) == x.2 && old(x.1.State()) == x.3
    ensures x.0.State() == x.2 && x.1.State() == x.3
  {
  }

  function Recording(s: SetState, element: string, isAdd: bool, ts: Clock, timestamp: Clock): SetState {
    if isAdd then s.(adds := s.adds[element := ts], timestamp := timestamp)
    else s.(removes := s.removes[element := ts], timestamp := timestamp)
  }

  /** What is kept for an element is the clock object of one of the two sides. */
  ghost predicate KeptFrom(ours: ClockRefs, theirs: ClockRefs, res: ClockRefs) {
    forall e :: e in res ==> KeptFor(ours, theirs, e, res[e])
  }

  ghost predicate KeptFor(ours: ClockRefs, theirs: ClockRefs, e: string, c: VectorClock) {
    (e in ours && c == ours[e]) || (e in theirs && c == theirs[e])
  }

  ghost predicate KeepsClocks(a: LWWSet, b: LWWSet, r: CRDT)
    reads a, b, Ref(r)
  {
    r.SetRef? && KeptFrom(a.Adds, b.Adds, r.lww.Adds) && KeptFrom(a.Removes, b.Removes, r.lww.Removes)
  }

  /** One merge loop of `LWWSet.Merge`. */
  method MergeClocks(ours: ClockRefs, theirs: ClockRefs) returns (res: ClockRefs)
    requires Recorded(ours) && Recorded(theirs)
    ensures Recorded(res) && KeptFrom(ours, theirs, res)
    ensures ClockMapMerge(Entries(ours), Entries(theirs), Entries(res))
  {
    ghost var a, b := Entries(ours), Entries(theirs);
    res := ours;
    var todo := theirs.Keys;
    while todo != {}
      invariant todo <= theirs.Keys
      invariant res.Keys == ours.Keys + (theirs.Keys - todo)
      invariant forall e :: e in res && e in todo ==> res[e] == ours[e]
      invariant forall e :: e in res && e !in todo ==> Picked(ours, theirs, a, b, e, res[e], res[e].entries)
    {
      var e :| e in todo;
      todo := todo - {e};
      var kept := MergeElement(ours, theirs, a, b, res, e);
      res := res[e := kept];
    }
    assert forall e :: e in res ==> Picked(ours, theirs, a, b, e, res[e], res[e].entries);
  }

  /** The clock c, with value v, is what merging leaves for the element. */
  ghost predicate Picked(ours: ClockRefs, theirs: ClockRefs, a: ClockMap, b: ClockMap, e: string, c: VectorClock,
                          v: Clock) {
    !c.ticking && KeptFor(ours, theirs, e, c) && (e in a || e in b) && ElementMerge(a, b, e, v)
  }

  /** Its body: take over what is new, and resolve what both sides have. */
  method MergeElement(ghost ours: ClockRefs, theirs: ClockRefs, ghost a: ClockMap, ghost b: ClockMap, res: ClockRefs,
                      e: string) returns (kept: VectorClock)
    requires e in theirs && Recorded(ours) && Recorded(theirs) && a == Entries(ours) && b == Entries(theirs)
    requires (e in res <==> e in ours) && (e in ours ==> res[e] == ours[e])
    ensures Picked(ours, theirs, a, b, e, kept, kept.entries) && a == Entries(ours) && b == Entries(theirs)
  {
    if e !in res {
      kept := theirs[e];
    } else {
      kept := Resolve(res[e], theirs[e]);
    }
  }

  class Counter {
    const Key: string
    var Counters: Clock
    var Timestamp: VectorClock

    ghost predicate Valid()
      reads this
    {
      Timestamp.ticking
    }

    function State(): CounterState
      reads this, Timestamp
    {
      CounterState(Key, Counters, Timestamp.entries)
    }

    constructor (key: string)
      ensures Valid() && Key == key && State() == NewCounter(key) && fresh(Timestamp)
    {
      Key := key;
      Counters := map[];
      Timestamp := new VectorClock(map[], true);
    }

    constructor Holding(key: string, counters: Clock, timestamp: VectorClock)
      requires timestamp.ticking
      ensures Valid() && State() == CounterState(key, counters, timestamp.entries) && Timestamp == timestamp
    {
      Key, Counters, Timestamp := key, counters, timestamp;
    }

    /** `IncrementWithTimestamp`: without a clock the timestamp is ticked in place. */
    method IncrementWithTimestamp(nodeID: string, value: nat, ts: VectorClock?)
      requires Valid()
      modifies this, Timestamp
      ensures Valid() && (Timestamp == old(Timestamp) || fresh(Timestamp))
      ensures State() == old(CounterAfter(State(), Operation(OpCounterInc, Key, nodeID, "", value,
                                                             if ts == null then map[] else ts.entries)))
    {
      Counters := Counters[nodeID := Wrap((if nodeID in Counters then Counters[nodeID] else 0) + value)];
      if ts != null && ts.entries != map[] {
        Timestamp := Timestamp.Merge(ts, true);
      } else {
        Timestamp.Increment(nodeID);
      }
    }

    /** `Value`: a uint64 running total over the entries, in any order. */
    method Value() returns (total: nat)
      ensures total == Wrap(Sum(Counters))
    {
      total := 0;
      ghost var exact: nat := 0;
      var todo := Counters;
      while todo.Keys != {}
        invariant exact + Sum(todo) == Sum(Counters)
        invariant total == Wrap(exact)
        decreases todo.Keys
      {
        var n :| n in todo.Keys;
        SumPicks(todo, n);
        WrapsOnce(exact, todo[n]);
        total := Wrap(total + todo[n]);
        exact := exact + todo[n];
        todo := todo - {n};
      }
    }

    method Merge(other: CRDT) returns (res: Option<CRDT>)
      requires Valid() && ValidObject(other)
      ensures res.Some? <==> Mergeable(ACounter(State()), ObjectStateOf(other))
      ensures res.Some? ==> fresh(Own(res.value)) && ValidObject(res.value)
                            && MergeOf(ACounter(State()), ObjectStateOf(other), ObjectStateOf(res.value))
    {
      if !other.CounterRef? || Key != other.counter.Key { return None; }
      var o := other.counter;
      var counters := Counters;
      var todo := o.Counters.Keys;
      while todo != {}
        invariant todo <= o.Counters.Keys
        invariant counters.Keys == Counters.Keys + (o.Counters.Keys - todo)
        invariant forall n :: n in counters ==>
          counters[n] == if n in todo || n !in o.Counters then Counters[n] else Lub(Counters, o.Counters)[n]
      {
        var n :| n in todo;
        todo := todo - {n};
        if n !in counters || o.Counters[n] > counters[n] {
          counters := counters[n := o.Counters[n]];
        }
      }
      assert counters == Lub(Counters, o.Counters);
      var timestamp := Timestamp.Merge(o.Timestamp, true);
      var r := new Counter.Holding(Key, counters, timestamp);
      res := Some(CounterRef(r));
    }
  }

  // ---- One object ----

  datatype CRDT = SetRef(lww: LWWSet) | CounterRef(counter: Counter)

  ghost function Ref(o: CRDT): object {
    match o case SetRef(s) => s case CounterRef(c) => c
  }

  /** The object, and the one clock it may tick in place. */
  ghost function Own(o: CRDT): set<object>
    reads Ref(o)
  {
    match o case SetRef(s) => {s} case CounterRef(c) => {c, c.Timestamp}
  }

  /** Every clock the object refers to. */
  ghost function ClocksOf(o: CRDT): set<VectorClock>
    reads Ref(o)
  {
    match o
    case SetRef(s) => s.Adds.Values + s.Removes.Values + {s.Timestamp}
    case CounterRef(c) => {c.Timestamp}
  }

  ghost predicate ValidObject(o: CRDT)
    reads Ref(o)
  {
    match o case SetRef(s) => s.Valid() case CounterRef(c) => c.Valid()
  }

  function ObjectStateOf(o: CRDT): ObjectState
    reads Ref(o), ClocksOf(o)
  {
    match o case SetRef(s) => ASet(s.State()) case CounterRef(c) => ACounter(c.State())
  }

  method MergeCRDT(a: CRDT, b: CRDT) returns (res: Option<CRDT>)
    requires ValidObject(a) && ValidObject(b)
    ensures res.Some? <==> old(Mergeable(ObjectStateOf(a), ObjectStateOf(b)))
    ensures res.Some? ==> fresh(Own(res.value)) && ValidObject(res.value)
                          && MergeOf(old(ObjectStateOf(a)), old(ObjectStateOf(b)), ObjectStateOf(res.value))
  {
    match a
    case SetRef(s) => res := s.Merge(b);
    case CounterRef(c) => res := c.Merge(b);
  }

  /** The same clock objects are recorded for the same elements. */
  ghost predicate SameElementClocks(a: CRDT, b: CRDT)
    reads Ref(a), Ref(b)
  {
    if a.SetRef? then b.SetRef? && b.lww.Adds == a.lww.Adds && b.lww.Removes == a.lww.Removes else b.CounterRef?
  }

  ghost function TimestampOf(o: CRDT): VectorClock
    reads Ref(o)
  {
    match o case SetRef(s) => s.Timestamp case CounterRef(c) => c.Timestamp
  }

  /** A new object with the same element clocks and a copy of the rest, under the given key. */
  method CopyCRDT(o: CRDT, key: string) returns (copy: CRDT)
    requires ValidObject(o)
    ensures fresh(Own(copy)) && fresh(TimestampOf(copy)) && ValidObject(copy)
    ensures ObjectStateOf(copy) == WithKey(old(ObjectStateOf(o)), key) && SameElementClocks(o, copy)
  {
    if o.SetRef? {
      var s := o.lww;
      var timestamp := new VectorClock(s.Timestamp.entries, false);
      var lww := new LWWSet.Holding(key, s.Adds, s.Removes, timestamp);
      copy := SetRef(lww);
    } else {
      var c := o.counter;
      var timestamp := new VectorClock(c.Timestamp.entries, true);
      var counter := new Counter.Holding(key, c.Counters, timestamp);
      copy := CounterRef(counter);
    }
  }

  // ---- Pruning ----

  lemma RestrictTwice(c: Clock, active: set<string>)
    ensures Restrict(Restrict(c, active), active) == Restrict(c, active)
  {
  }

  /** Prune every clock of the map in place; a clock that several elements share is pruned again
      without effect. */
  method PruneClocks(m: ClockRefs, active: set<string>)
    modifies m.Values
    ensures forall c :: c in m.Values ==> c.entries == Restrict(old(c.entries), active)
  {
    var todo := m.Keys;
    while todo != {}
      invariant todo <= m.Keys
      invariant forall c :: c in m.Values
                  ==> c.entries == old(c.entries) || c.entries == Restrict(old(c.entries), active)
      invariant forall e :: e in m && e !in todo ==> m[e].entries == Restrict(old(m[e].entries), active)
    {
      var e :| e in todo;
      todo := todo - {e};
      RestrictTwice(old(m[e].entries), active);
      m[e].Prune(active);
    }
  }

  method PruneCRDT(o: CRDT, active: set<string>)
    modifies ClocksOf(o)
    ensures forall c :: c in ClocksOf(o) ==> c.entries == Restrict(old(c.entries), active)
  {
    if o.SetRef? {
      PruneClocks(o.lww.Adds, active);
      PruneClocks(o.lww.Removes, active);
      o.lww.Timestamp.Prune(active);
      forall c | c in ClocksOf(o) ensures c.entries == Restrict(old(c.entries), active) {
        RestrictTwice(old(c.entries), active);
      }
    } else {
      o.counter.Timestamp.Prune(active);
    }
  }

  /** The object's clocks are those of was, pruned. */
  ghost predicate ReadsPruned(o: CRDT, was: ObjectState, active: set<string>)
    reads Ref(o), ClocksOf(o)
  {
    o.SetRef? == was.ASet? &&
    if o.SetRef? then
      && was.s.key == o.lww.Key
      && MapReadsPruned(o.lww.Adds, was.s.adds, active)
      && MapReadsPruned(o.lww.Removes, was.s.removes, active)
      && o.lww.Timestamp.entries == Restrict(was.s.timestamp, active)
    else
      was.c == CounterState(o.counter.Key, o.counter.Counters, was.c.timestamp)
      && o.counter.Timestamp.entries == Restrict(was.c.timestamp, active)
  }

  ghost predicate MapReadsPruned(m: ClockRefs, was: ClockMap, active: set<string>)
    reads m.Values
  {
    was.Keys == m.Keys && forall e :: e in m ==> m[e].entries == Restrict(was[e], active)
  }

  lemma PrunedReads(o: CRDT, was: ObjectState, active: set<string>)
    requires ReadsPruned(o, was, active)
    ensures ObjectStateOf(o) == Pruned(was, active)
  {
  }

  method CollectNodes(m: ClockRefs) returns (nodes: set<string>)
    ensures nodes == NodesIn(Entries(m))
  {
    ghost var v := Entries(m);
    nodes := {};
    var todo := m.Keys;
    while todo != {}
      invariant todo <= m.Keys
      invariant forall n :: n in nodes <==> exists e :: e in v && e !in todo && n in v[e]
    {
      var e :| e in todo;
      todo := todo - {e};
      assert v[e] == m[e].entries;
      nodes := nodes + m[e].entries.Keys;
    }
  }

  method CollectNodesOf(o: CRDT) returns (nodes: set<string>)
    ensures nodes == NodesOf(ObjectStateOf(o))
  {
    if o.SetRef? {
      var adds := CollectNodes(o.lww.Adds);
      var removes := CollectNodes(o.lww.Removes);
      nodes := adds + removes + o.lww.Timestamp.entries.Keys;
    } else {
      nodes := o.counter.Timestamp.entries.Keys;
    }
  }
}
