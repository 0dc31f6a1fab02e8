/** The replicated objects and the store as values: operations, merge, listing and
    pruning. The classes of module LiveObjects are proved against these definitions. */
module Crdts {
  import opened Clocks

  datatype Option<+T> = None | Some(value: T)

  type ClockMap = map<string, Clock>

  datatype SetState = SetState(key: string, adds: ClockMap, removes: ClockMap, timestamp: Clock)
  datatype CounterState = CounterState(key: string, counters: Clock, timestamp: Clock)
  datatype ObjectState = ASet(s: SetState) | ACounter(c: CounterState) {
    function Key(): string {
      if ASet? then s.key else c.key
    }
  }
  type StoreState = map<string, ObjectState>

  const U64: nat := 0x1_0000_0000_0000_0000

  /** uint64 arithmetic. */
  function Wrap(n: nat): (r: nat)
    ensures r <= n && r < U64 && (n < U64 ==> r == n)
  {
    n % 0x1_0000_0000_0000_0000
  }

  /** Wrapping takes away a multiple of 2^64. */
  lemma WrapIsModular(n: nat) returns (q: nat)
    ensures n == q * U64 + Wrap(n)
  {
    q := n / U64;
  }

  lemma WrapsOnce(a: nat, b: nat)
    ensures Wrap(Wrap(a) + b) == Wrap(a + b)
  {
  }

  function NewSet(key: string): SetState {
    SetState(key, map[], map[], map[])
  }

  function NewCounter(key: string): CounterState {
    CounterState(key, map[], map[])
  }

  // ---- Local operations ----

  /** Kinds are numbers on the wire; one outside 1..3 is carried but has no effect. */
  datatype OpKind = OpAdd | OpRemove | OpCounterInc | OpUnknown(code: nat)
  datatype Operation = Operation(kind: OpKind, key: string, nodeID: string, element: string, value: nat, ts: Clock)

  /** The clock an operation is recorded with: the supplied one, or the object's clock ticked. */
  function Stamp(timestamp: Clock, nodeID: string, ts: Clock): Clock {
    if ts == map[] then Bump(timestamp, nodeID) else ts
  }

  function SetAfter(s: SetState, op: Operation): SetState {
    var ts := Stamp(s.timestamp, op.nodeID, op.ts);
    var s' := s.(timestamp := Lub(s.timestamp, ts));
    if op.kind == OpAdd then s'.(adds := s.adds[op.element := ts])
    else s'.(removes := s.removes[op.element := ts])
  }

  /** Counter entries are uint64 and wrap. */
  function CounterAfter(c: CounterState, op: Operation): CounterState {
    CounterState(
      c.key,
      c.counters[op.nodeID := Wrap(Entry(c.counters, op.nodeID) + op.value)],
      if op.ts == map[] then Bump(c.timestamp, op.nodeID) else Lub(c.timestamp, op.ts))
  }

  function Entry(m: Clock, n: string): nat {
    if n in m then m[n] else 0
  }

  function ObjectAfter(o: ObjectState, op: Operation): ObjectState {
    match o
    case ASet(s) => ASet(SetAfter(s, op))
    case ACounter(c) => ACounter(CounterAfter(c, op))
  }

  /** The object an operation creates when its key is new. */
  function NewObject(op: Operation): ObjectState {
    if op.kind == OpCounterInc then ACounter(NewCounter(op.key)) else ASet(NewSet(op.key))
  }

  /** The store after `AppendOp`, or None for ErrWrongType. */
  function Perform(st: StoreState, op: Operation): Option<StoreState> {
    if op.kind.OpUnknown? then
      Some(st)
    else
      var o := if op.key in st then st[op.key] else NewObject(op);
      if o.ASet? == NewObject(op).ASet? then Some(st[op.key := ObjectAfter(o, op)]) else None
  }

  /** The store after a log of accepted operations, applied from the first on; None if one fails. */
  function Replay(st: StoreState, log: seq<Operation>): Option<StoreState>
    decreases |log|
  {
    if log == [] then Some(st)
    else match Perform(st, log[0]) case None => None case Some(st') => Replay(st', log[1..])
  }

  lemma {:induction false} ReplayAppend(st: StoreState, log: seq<Operation>, op: Operation)
    requires Replay(st, log).Some?
    decreases |log|
    ensures Replay(st, log + [op]) == Perform(Replay(st, log).value, op)
  {
    if log == [] {
      assert log + [op] == [op];
    } else {
      assert (log + [op])[1..] == log[1..] + [op];
      ReplayAppend(Perform(st, log[0]).value, log[1..], op);
    }
  }

  lemma ReplayNext(log: seq<Operation>, st: StoreState, op: Operation)
    ensures Replay(map[], log) == Some(st) ==> Replay(map[], log + [op]) == Perform(st, op)
  {
    if Replay(map[], log) == Some(st) { ReplayAppend(map[], log, op); }
  }

  // ---- Reading ----

  /** `Contains`: added, and not removed or added strictly later; a tie removes. */
  predicate Visible(s: SetState, e: string) {
    e in s.adds && (e in s.removes ==> Less(s.removes[e], s.adds[e]))
  }

  function VisibleElements(s: SetState): set<string> {
    set e | e in s.adds && Visible(s, e)
  }

  /** The elements a read of key k lists. */
  function Shown(st: StoreState, k: string): set<string> {
    if k in st && st[k].ASet? then VisibleElements(st[k].s) else {}
  }

  /** The sum of all entries; the recursion may pick entries in any order. */
  ghost function Sum(m: Clock): nat {
    if m == map[] then 0 else var n :| n in m; m[n] + Sum(m - {n})
  }

  /** ... and the total does not depend on it. */
  lemma {:induction false} SumPicks(m: Clock, k: string)
    requires k in m
    ensures Sum(m) == m[k] + Sum(m - {k})
    decreases |m|
  {
    var n :| n in m && Sum(m) == m[n] + Sum(m - {n});
    if n != k {
      SumPicks(m - {n}, k);
      SumPicks(m - {k}, n);
      assert m - {n} - {k} == m - {k} - {n};
    }
  }

  lemma SumUpdate(m: Clock, k: string, v: nat)
    ensures Sum(m[k := v]) == Sum(m) - Entry(m, k) + v
  {
    SumPicks(m[k := v], k);
    assert m[k := v] - {k} == m - {k};
    if k in m { SumPicks(m, k); } else { assert m - {k} == m; }
  }

  lemma {:induction false} SumMonotone(a: Clock, b: Clock)
    requires forall n :: Entry(a, n) <= Entry(b, n)
    ensures Sum(a) <= Sum(b)
    decreases |a|
  {
    if a != map[] {
      var n :| n in a;
      SumPicks(a, n);
      var a', b' := a - {n}, b - {n};
      forall k ensures Entry(a', k) <= Entry(b', k) {
        assert Entry(a, k) <= Entry(b, k);
      }
      SumMonotone(a', b');
      assert Entry(a, n) <= Entry(b, n);
      if n in b { SumPicks(b, n); } else { assert b' == b; }
    }
  }

  // ---- Merge ----

  /** One of the two merge loops over element clocks: a may become r on receiving b. */
  ghost predicate ClockMapMerge(a: ClockMap, b: ClockMap, r: ClockMap) {
    r.Keys == a.Keys + b.Keys && forall e :: e in r ==> ElementMerge(a, b, e, r[e])
  }

  ghost predicate ElementMerge(a: ClockMap, b: ClockMap, e: string, c: Clock)
    requires e in a || e in b
  {
    if e !in b then c == a[e] else if e !in a then c == b[e] else Resolves(a[e], b[e], c)
  }

  /** r may be the result of a.Merge(b). Merge succeeds iff the kinds and keys agree. */
  ghost predicate MergeOf(a: ObjectState, b: ObjectState, r: ObjectState) {
    Mergeable(a, b) &&
    match (a, b, r)
    case (ASet(s), ASet(o), ASet(t)) =>
      && t.key == s.key
      && ClockMapMerge(s.adds, o.adds, t.adds)
      && ClockMapMerge(s.removes, o.removes, t.removes)
      && t.timestamp == Lub(s.timestamp, o.timestamp)
    case (ACounter(c), ACounter(d), ACounter(t)) =>
      t == CounterState(c.key, Lub(c.counters, d.counters), Lub(c.timestamp, d.timestamp))
    case _ => false
  }

  predicate Mergeable(a: ObjectState, b: ObjectState) {
    a.ASet? == b.ASet? && a.Key() == b.Key()
  }

  /** Merging succeeds for two sets of one key and for two counters of one key, and for nothing else. */
  lemma MergesIff(a: ObjectState, b: ObjectState)
    ensures Mergeable(a, b) <==>
      match (a, b)
      case (ASet(s), ASet(o)) => s.key == o.key
      case (ACounter(c), ACounter(d)) => c.key == d.key
      case _ => false
    ensures forall r :: MergeOf(a, b, r) ==> Mergeable(a, b) && r.ASet? == a.ASet? && r.Key() == a.Key()
  {
  }

  lemma PartsMerge(s: SetState, o: SetState, a: ClockMap, d: ClockMap)
    requires s.key == o.key
    requires ClockMapMerge(s.adds, o.adds, a) && ClockMapMerge(s.removes, o.removes, d)
    ensures MergeOf(ASet(s), ASet(o), ASet(SetState(s.key, a, d, Lub(s.timestamp, o.timestamp))))
  {
  }

  // ---- Synchronisation ----

  /** `GetAllCRDTs` labels every copy with the map key it was found under. */
  function Export(st: StoreState): StoreState {
    map k | k in st :: WithKey(st[k], k)
  }

  function WithKey(o: ObjectState, k: string): ObjectState {
    match o
    case ASet(s) => ASet(s.(key := k))
    case ACounter(c) => ACounter(c.(key := k))
  }

  /** A snapshot has the store's keys and values, with every object under its own key. */
  lemma ExportLabels(st: StoreState, k: string)
    ensures Export(st).Keys == st.Keys
    ensures k in st ==> Export(st)[k].Key() == k
    ensures k in st && st[k].ASet?
      ==> Export(st)[k] == ASet(SetState(k, st[k].s.adds, st[k].s.removes, st[k].s.timestamp))
    ensures k in st && st[k].ACounter?
      ==> Export(st)[k] == ACounter(CounterState(k, st[k].c.counters, st[k].c.timestamp))
  {
  }

  ghost predicate SameAt(a: StoreState, b: StoreState, k: string) {
    (k in a <==> k in b) && (k in a ==> a[k] == b[k])
  }

  /** What one turn of the `applyCRDTSync` loop does at k: merge the message's object into
      the snapshot's and install it, install it alone, or skip it when merge fails. */
  ghost predicate Synced(snap: StoreState, msg: StoreState, before: StoreState, after: StoreState, k: string) {
    if k !in msg then SameAt(before, after, k)
    else if k !in snap then k in after && after[k] == msg[k]
    else if !Mergeable(snap[k], msg[k]) then SameAt(before, after, k)
    else k in after && MergeOf(snap[k], msg[k], after[k])
  }

  /** after may be the store once the whole message has been applied. */
  ghost predicate SyncOf(snap: StoreState, msg: StoreState, before: StoreState, after: StoreState) {
    forall k :: Synced(snap, msg, before, after, k)
  }

  // ---- Pruning ----

  function PruneMap(m: ClockMap, active: set<string>): ClockMap {
    map e | e in m :: Restrict(m[e], active)
  }

  function Pruned(o: ObjectState, active: set<string>): ObjectState {
    match o
    case ASet(s) => ASet(SetState(s.key, PruneMap(s.adds, active), PruneMap(s.removes, active),
                                  Restrict(s.timestamp, active)))
    case ACounter(c) => ACounter(c.(timestamp := Restrict(c.timestamp, active)))
  }

  function PrunedStore(st: StoreState, active: set<string>): StoreState {
    map k | k in st :: Pruned(st[k], active)
  }

  function NodesIn(m: ClockMap): set<string> {
    set e, n | e in m && n in m[e] :: n
  }

  function NodesOf(o: ObjectState): set<string> {
    match o
    case ASet(s) => NodesIn(s.adds) + NodesIn(s.removes) + s.timestamp.Keys
    case ACounter(c) => c.timestamp.Keys
  }

  /** `GetActiveNodes`: every node that occurs in some clock. */
  function ActiveNodes(st: StoreState): set<string> {
    set k, n | k in st && n in NodesOf(st[k]) :: n
  }
}
