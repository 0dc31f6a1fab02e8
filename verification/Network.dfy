/** Any number of replicas that run local operations and exchange their states over a network
    that may drop, repeat and reorder messages. Applying a message is one atomic step, or it is
    split at the unlocked gap between taking the snapshot and installing each merged object. Clocks may
    be pruned at any time. */
module Network {
  import opened Clocks
  import opened Crdts
  import opened Engines

  /** A message and what its sender knew (history): how many operations of each node it had absorbed. */
  datatype Packet = Packet(from: string, data: StoreState, known: Clock)

  /** A message being applied piecemeal: the snapshot taken, and the keys still to be installed. */
  datatype Applying = Applying(snap: StoreState, msg: StoreState, todo: set<string>)

  /** log and known are history: the node's accepted operations, and how many of each node's it absorbed. */
  datatype Replica = Replica(store: StoreState, applying: Option<Applying>, log: seq<Operation>, known: Clock)

  /** issued and increments are history: what was added to every counter entry, and by how many operations. */
  datatype Net = Net(replicas: map<string, Replica>, sent: set<Packet>, issued: map<string, Clock>, increments: nat)

  datatype Step =
    | Local(p: string, op: Operation)
    | Snapshot(p: string)
    | Apply(p: string, m: Packet)
    | Begin(p: string, m: Packet)
    | Install(p: string, key: string)
    | Finish(p: string)
    | Prune(p: string, active: set<string>)

  ghost predicate Init(n: Net) {
    && (forall p :: p in n.replicas ==> n.replicas[p] == Replica(map[], None, [], map[]))
    && n.sent == {} && n.issued == map[] && n.increments == 0
  }

  function Credit(issued: map<string, Clock>, op: Operation): map<string, Clock> {
    var m := if op.key in issued then issued[op.key] else map[];
    issued[op.key := m[op.nodeID := Entry(m, op.nodeID) + op.value]]
  }

  function AfterLocal(n: Net, p: string, op: Operation): Net
    requires p in n.replicas
  {
    var r := n.replicas[p];
    if Refusal(r.store, op).Some? then n
    else
      var r' := r.(store := Submit(r.store, op), log := r.log + [op], known := r.known[p := |r.log| + 1]);
      var n' := n.(replicas := n.replicas[p := r']);
      if op.kind == OpCounterInc then n'.(issued := Credit(n.issued, op), increments := n.increments + 1) else n'
  }

  ghost predicate Next(n: Net, s: Step, n': Net) {
    s.p in n.replicas &&
    var r := n.replicas[s.p];
    match s
    case Local(p, op) => n' == AfterLocal(n, p, op)
    case Snapshot(p) => n' == n.(sent := n.sent + {Packet(p, Export(r.store), r.known)})
    case Apply(p, m) =>
      && m in n.sent && m.from != p && r.applying.None?
      && exists st :: SyncOf(Export(r.store), m.data, r.store, st)
                      && n' == n.(replicas := n.replicas[p := r.(store := st, known := Lub(r.known, m.known))])
    case Begin(p, m) =>
      && m in n.sent && m.from != p && r.applying.None?
      && n' == n.(replicas := n.replicas[p := r.(applying := Some(Applying(Export(r.store), m.data, m.data.Keys)))])
    case Install(p, key) =>
      && r.applying.Some? && key in r.applying.value.todo
      && var a := r.applying.value;
         exists st :: SyncOf(a.snap, map k | k in a.msg && k == key :: a.msg[k], r.store, st)
                      && n' == n.(replicas :=
                                  n.replicas[p := r.(store := st, applying := Some(a.(todo := a.todo - {key})))])
    case Finish(p) =>
      && r.applying.Some? && r.applying.value.todo == {}
      && n' == n.(replicas := n.replicas[p := r.(applying := None)])
    case Prune(p, active) =>
      p in n'.replicas && n' == n.(replicas := n.replicas[p := n'.replicas[p]])
        && PrunedReplica(r, n'.replicas[p], active)
  }

  ghost predicate PrunedReplica(r: Replica, r': Replica, active: set<string>) {
    && r' == r.(store := PrunedStore(r.store, active), applying := r'.applying)
    && r'.applying.Some? == r.applying.Some?
    && (r.applying.Some? ==>
          && r'.applying.value == r.applying.value.(snap := r'.applying.value.snap)
          && SnapshotPruned(r.applying.value.snap, r'.applying.value.snap, active))
  }

  /** A snapshot shares those element clocks with the store that have not been replaced since; they
      are pruned with the store's. The rest of the snapshot is a copy. */
  ghost predicate SnapshotPruned(snap: StoreState, snap': StoreState, active: set<string>) {
    snap'.Keys == snap.Keys && forall k :: k in snap ==> CopyPruned(snap[k], snap'[k], active)
  }

  ghost predicate CopyPruned(a: ObjectState, b: ObjectState, active: set<string>) {
    if a.ASet? then
      b.ASet? && b.s == a.s.(adds := b.s.adds, removes := b.s.removes)
      && SomePruned(a.s.adds, b.s.adds, active) && SomePruned(a.s.removes, b.s.removes, active)
    else b == a
  }

  ghost predicate SomePruned(m: ClockMap, m': ClockMap, active: set<string>) {
    m'.Keys == m.Keys && forall e :: e in m ==> m'[e] == m[e] || m'[e] == Restrict(m[e], active)
  }

  ghost predicate IsRun(ns: seq<Net>, steps: seq<Step>) {
    |ns| == |steps| + 1 && Init(ns[0]) && forall i: nat :: i < |steps| ==> NextAt(ns, steps, i)
  }

  ghost predicate NextAt(ns: seq<Net>, steps: seq<Step>, i: nat)
    requires i < |steps| < |ns|
  {
    Next(ns[i], steps[i], ns[i + 1])
  }

  // ---- Object invariants ----

  /** A property of the object found under a key. */
  type Good = (string, ObjectState) -> bool

  ghost predicate AllGood(st: StoreState, good: Good) {
    forall k :: k in st ==> good(k, st[k])
  }

  /** Every object in every store, snapshot and message, sent or being applied. */
  ghost predicate Everywhere(n: Net, good: Good) {
    && (forall p :: p in n.replicas ==> GoodReplica(n.replicas[p], good))
    && (forall m :: m in n.sent ==> AllGood(m.data, good))
  }

  ghost predicate GoodReplica(r: Replica, good: Good) {
    && AllGood(r.store, good)
    && (r.applying.Some? ==> AllGood(r.applying.value.snap, good) && AllGood(r.applying.value.msg, good))
  }

  /** Copying under the map key and merging keep the property. */
  ghost predicate Closed(good: Good) {
    && (forall k, o :: good(k, o) ==> good(k, WithKey(o, k)))
    && (forall k, a, b, r :: good(k, a) && good(k, b) && MergeOf(a, b, r) ==> good(k, r))
  }

  lemma ExportKeeps(st: StoreState, good: Good)
    requires AllGood(st, good) && Closed(good)
    ensures AllGood(Export(st), good)
  {
  }

  lemma SyncKeeps(snap: StoreState, msg: StoreState, before: StoreState, after: StoreState, good: Good)
    requires AllGood(snap, good) && AllGood(msg, good) && AllGood(before, good) && Closed(good)
    requires SyncOf(snap, msg, before, after)
    ensures AllGood(after, good)
  {
    forall k | k in after ensures good(k, after[k]) {
      assert Synced(snap, msg, before, after, k);
    }
  }

  /** Pruning, all or part of an object's clocks, keeps the property. */
  ghost predicate PruneClosed(good: Good) {
    && (forall k, o, active :: good(k, o) ==> good(k, Pruned(o, active)))
    && (forall k, a, b, active :: good(k, a) && CopyPruned(a, b, active) ==> good(k, b))
  }

  lemma PruneKeeps(n: Net, s: Step, n': Net, good: Good)
    requires Next(n, s, n') && s.Prune? && Everywhere(n, good) && PruneClosed(good)
    ensures Everywhere(n', good)
  {
  }

  /** Only local operations and pruning can break such a property. */
  lemma StepKeeps(n: Net, s: Step, n': Net, good: Good)
    requires Next(n, s, n') && !s.Local? && !s.Prune? && Everywhere(n, good) && Closed(good)
    ensures Everywhere(n', good)
  {
    var r := n.replicas[s.p];
    ExportKeeps(r.store, good);
    if s.Apply? {
      SyncKeeps(Export(r.store), s.m.data, r.store, n'.replicas[s.p].store, good);
    } else if s.Install? {
      var a := r.applying.value;
      SyncKeeps(a.snap, map k | k in a.msg && k == s.key :: a.msg[k], r.store, n'.replicas[s.p].store, good);
    }
  }

  lemma LocalKeeps(n: Net, p: string, op: Operation, good: Good)
    requires p in n.replicas && Everywhere(n, good)
    requires Refusal(n.replicas[p].store, op).None? ==> AllGood(Submit(n.replicas[p].store, op), good)
    ensures Everywhere(AfterLocal(n, p, op), good)
  {
  }

  lemma InitGood(n: Net, good: Good)
    requires Init(n)
    ensures Everywhere(n, good)
  {
  }

  // ---- Keys and kinds ----

  ghost function Labelled(): Good {
    (k: string, o: ObjectState) => o.Key() == k
  }

  /** In every run, split applies included, every object carries the key it is stored or sent under. */
  lemma {:induction false} ObjectsCarryTheirKeys(ns: seq<Net>, steps: seq<Step>, i: nat)
    requires IsRun(ns, steps) && i < |ns|
    ensures Everywhere(ns[i], Labelled())
  {
    var good := Labelled();
    if i == 0 {
      InitGood(ns[0], good);
    } else {
      ObjectsCarryTheirKeys(ns, steps, i - 1);
      var n, s, n' := ns[i - 1], steps[i - 1], ns[i];
      assert NextAt(ns, steps, i - 1);
      if s.Local? {
        LocalKeeps(n, s.p, s.op, good);
      } else if s.Prune? {
        PruneKeeps(n, s, n', good);
      } else {
        StepKeeps(n, s, n', good);
      }
    }
  }

  /** With atomic applies, a key keeps the kind of object it was first given. */
  lemma KindsAreStable(n: Net, s: Step, n': Net, p: string, k: string)
    requires Next(n, s, n') && !s.Install? && p in n.replicas && k in n.replicas[p].store
    ensures p in n'.replicas && k in n'.replicas[p].store
    ensures n'.replicas[p].store[k].ASet? == n.replicas[p].store[k].ASet?
  {
    var r := n.replicas[s.p];
    if s.Apply? && p == s.p {
      assert Synced(Export(r.store), s.m.data, r.store, n'.replicas[p].store, k);
    }
  }

  /** So it does through any run without split applies. */
  lemma {:induction false} KindsStay(ns: seq<Net>, steps: seq<Step>, i: nat, j: nat, p: string, k: string)
    requires IsRun(ns, steps) && i <= j < |ns| && forall t :: i <= t < j ==> !steps[t].Install?
    requires p in ns[i].replicas && k in ns[i].replicas[p].store
    ensures p in ns[j].replicas && k in ns[j].replicas[p].store
    ensures ns[j].replicas[p].store[k].ASet? == ns[i].replicas[p].store[k].ASet?
  {
    if i < j {
      KindsStay(ns, steps, i, j - 1, p, k);
      assert NextAt(ns, steps, j - 1);
      KindsAreStable(ns[j - 1], steps[j - 1], ns[j], p, k);
    }
  }

  /** What is still to be installed was sent, and what the snapshot has of it, the store has in the same kind. */
  ghost predicate SnapshotKinds(r: Replica) {
    r.applying.Some? ==>
      var a := r.applying.value;
      && a.todo <= a.msg.Keys
      && forall k :: k in a.todo && k in a.snap ==> k in r.store && r.store[k].ASet? == a.snap[k].ASet?
  }

  lemma SnapshotKindsStep(n: Net, s: Step, n': Net, p: string)
    requires Next(n, s, n') && p in n.replicas && SnapshotKinds(n.replicas[p])
    ensures p in n'.replicas && SnapshotKinds(n'.replicas[p])
  {
    if s.p == p && s.Install? {
      var r, r' := n.replicas[p], n'.replicas[p];
      var a := r.applying.value;
      forall k | k in r'.applying.value.todo && k in a.snap
        ensures k in r'.store && r'.store[k].ASet? == a.snap[k].ASet? {
        assert Synced(a.snap, map j | j in a.msg && j == s.key :: a.msg[j], r.store, r'.store, k);
      }
    }
  }

  lemma {:induction false} SnapshotKindsHold(ns: seq<Net>, steps: seq<Step>, i: nat, p: string)
    requires IsRun(ns, steps) && i < |ns| && p in ns[i].replicas
    ensures SnapshotKinds(ns[i].replicas[p])
  {
    if i > 0 {
      assert NextAt(ns, steps, i - 1);
      SnapshotKindsHold(ns, steps, i - 1, p);
      SnapshotKindsStep(ns[i - 1], steps[i - 1], ns[i], p);
    }
  }

  /** With split applies it may not: in every run, an install changes the kind of an object in the store exactly if
      the snapshot lacks the key, under which the object has been created since, and the received one is of
      the other kind. */
  lemma InstallChangesKindIff(ns: seq<Net>, steps: seq<Step>, i: nat, p: string, k: string)
    requires IsRun(ns, steps) && i < |steps| && steps[i] == Install(p, k)
    requires p in ns[i].replicas && k in ns[i].replicas[p].store
    ensures p in ns[i + 1].replicas && k in ns[i + 1].replicas[p].store
    ensures var r := ns[i].replicas[p];
            && r.applying.Some? && k in r.applying.value.msg
            && (ns[i + 1].replicas[p].store[k].ASet? != r.store[k].ASet? <==>
                  k !in r.applying.value.snap && r.applying.value.msg[k].ASet? != r.store[k].ASet?)
  {
    SnapshotKindsHold(ns, steps, i, p);
    assert NextAt(ns, steps, i);
    var r, r' := ns[i].replicas[p], ns[i + 1].replicas[p];
    var a := r.applying.value;
    assert Synced(a.snap, map j | j in a.msg && j == k :: a.msg[j], r.store, r'.store, k);
  }

  // ---- Counter bounds ----

  /** No entry of a counter exceeds what was issued for it. */
  ghost predicate Covered(issued: map<string, Clock>, k: string, o: ObjectState) {
    o.ACounter? ==> forall n :: Entry(o.c.counters, n) <= Entry(IssuedFor(issued, k), n)
  }

  ghost function CoveredBy(issued: map<string, Clock>): Good {
    (k, o) => Covered(issued, k, o)
  }

  function IssuedFor(issued: map<string, Clock>, k: string): Clock {
    if k in issued then issued[k] else map[]
  }

  ghost predicate Bounded(n: Net) {
    && Everywhere(n, CoveredBy(n.issued))
    && forall k :: Sum(IssuedFor(n.issued, k)) <= n.increments * 1000000
  }

  lemma CoveredClosed(issued: map<string, Clock>)
    ensures Closed(CoveredBy(issued))
  {
  }

  lemma CreditGrows(issued: map<string, Clock>, op: Operation, k: string, o: ObjectState)
    requires Covered(issued, k, o)
    ensures Covered(Credit(issued, op), k, o)
  {
  }

  lemma BoundedStep(n: Net, s: Step, n': Net)
    requires Next(n, s, n') && Bounded(n)
    ensures Bounded(n')
  {
    if s.Prune? {
      PruneKeeps(n, s, n', CoveredBy(n.issued));
    } else if !s.Local? {
      CoveredClosed(n.issued);
      StepKeeps(n, s, n', CoveredBy(n.issued));
    } else if Refusal(n.replicas[s.p].store, s.op).None? && s.op.kind == OpCounterInc {
      BoundedIncrement(n, s, n');
    }
  }

  lemma BoundedIncrement(n: Net, s: Step, n': Net)
    requires Next(n, s, n') && Bounded(n) && s.Local? && s.op.kind == OpCounterInc
    requires Refusal(n.replicas[s.p].store, s.op).None?
    ensures Bounded(n')
  {
    var op, good, good' := s.op, CoveredBy(n.issued), CoveredBy(n'.issued);
    assert Everywhere(n, good') by {
      forall k, o | good(k, o) ensures good'(k, o) { CreditGrows(n.issued, op, k, o); }
    }
    var st := n.replicas[s.p].store;
    forall k | k in Submit(st, op) ensures good'(k, Submit(st, op)[k]) {
      if k in st { assert good'(k, st[k]); }
    }
    LocalKeeps(n, s.p, op, good');
    forall k ensures Sum(IssuedFor(n'.issued, k)) <= n'.increments * 1000000 {
      CreditSum(n.issued, op, k);
    }
  }

  lemma CreditSum(issued: map<string, Clock>, op: Operation, k: string)
    ensures Sum(IssuedFor(Credit(issued, op), k)) == Sum(IssuedFor(issued, k)) + if k == op.key then op.value else 0
  {
    var m := IssuedFor(issued, k);
    SumUpdate(m, op.nodeID, Entry(m, op.nodeID) + op.value);
  }

  lemma {:induction false} RunsAreBounded(ns: seq<Net>, steps: seq<Step>, i: nat)
    requires IsRun(ns, steps) && i < |ns|
    ensures Bounded(ns[i])
  {
    if i == 0 {
      InitGood(ns[0], CoveredBy(ns[0].issued));
    } else {
      RunsAreBounded(ns, steps, i - 1);
      assert NextAt(ns, steps, i - 1);
      BoundedStep(ns[i - 1], steps[i - 1], ns[i]);
    }
  }

  /** In every run, with split applies and increments of any entry by any node: a replica's counter
      never shows more than was issued for it, nor more than a million per accepted increment; up to
      18,446,744,073,709 increments the uint64 total does not wrap, so it is the exact sum. */
  lemma CounterNeverExceedsIssued(ns: seq<Net>, steps: seq<Step>, i: nat, p: string, k: string)
    requires IsRun(ns, steps) && i < |ns| && p in ns[i].replicas
    requires k in ns[i].replicas[p].store && ns[i].replicas[p].store[k].ACounter?
    ensures var c := ns[i].replicas[p].store[k].c.counters;
            && (forall n :: Entry(c, n) <= Entry(IssuedFor(ns[i].issued, k), n))
            && Wrap(Sum(c)) <= Sum(c) <= Sum(IssuedFor(ns[i].issued, k)) <= ns[i].increments * 1000000
            && (ns[i].increments <= 18446744073709 ==> Wrap(Sum(c)) == Sum(c))
  {
    RunsAreBounded(ns, steps, i);
    var o := ns[i].replicas[p].store[k];
    assert Covered(ns[i].issued, k, o);
    SumMonotone(o.c.counters, IssuedFor(ns[i].issued, k));
  }
}
