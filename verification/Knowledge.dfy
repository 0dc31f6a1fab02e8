/** What a running node knows decides what it holds: in atomic histories, nodes that have absorbed the
    same operations, directly or through others, have equal stores. */
module Knowledge {
  import opened Clocks
  import opened Crdts
  import opened Engines
  import opened LocalData
  import opened Network
  import opened Absorption
  import opened Protocol
  import opened Running
  import opened Gap
  import opened Shortfall

  function ObjectClock(o: ObjectState): Clock {
    if o.ASet? then o.s.timestamp else o.c.timestamp
  }

  /** p's entry in the timestamp of the object under k. */
  function MarkOf(st: StoreState, k: string, p: string): nat {
    if k in st then Entry(ObjectClock(st[k]), p) else 0
  }

  function OpMark(op: Operation, k: string): nat {
    if op.key == k then Entry(op.ts, op.nodeID) else 0
  }

  /** The largest clock entry of the log's node among its first t operations on k. */
  function LogMark(log: seq<Operation>, t: nat, k: string): nat
    requires t <= |log|
  {
    if t == 0 then 0 else Larger(LogMark(log, t - 1, k), OpMark(log[t - 1], k))
  }

  lemma {:induction false} LogMarkMonotone(log: seq<Operation>, s: nat, t: nat, k: string)
    requires s <= t <= |log|
    ensures LogMark(log, s, k) <= LogMark(log, t, k)
  {
    if s < t { LogMarkMonotone(log, s, t - 1, k); }
  }

  lemma {:induction false} LogMarkPrefix(log: seq<Operation>, op: Operation, t: nat, k: string)
    requires t <= |log|
    ensures LogMark(log + [op], t, k) == LogMark(log, t, k)
  {
    if t > 0 { LogMarkPrefix(log, op, t - 1, k); }
  }

  ghost function ShareMark(n: Net, p: string, t: nat, k: string): nat {
    if p in n.replicas && t <= |n.replicas[p].log| then LogMark(n.replicas[p].log, t, k) else 0
  }

  /** Every object has a timestamp, and its entries are positive. */
  ghost predicate Stamped(o: ObjectState) {
    ObjectClock(o) != map[] && forall p :: p in ObjectClock(o) ==> ObjectClock(o)[p] > 0
  }

  /** Every object's timestamp tells exactly what was absorbed of each node's operations on it. */
  ghost predicate Marks(n: Net, st: StoreState, known: Clock) {
    && Known(n, known) && (forall k :: k in st ==> Stamped(st[k]))
    && forall k, p :: MarkOf(st, k, p) == ShareMark(n, p, Entry(known, p), k)
  }

  ghost predicate MarksReplica(n: Net, p: string, r: Replica) {
    r.applying.None? && Entry(r.known, p) == |r.log| && Marks(n, r.store, r.known)
  }

  ghost predicate Marked(n: Net) {
    && (forall p :: p in n.replicas ==> MarksReplica(n, p, n.replicas[p]))
    && (forall m :: m in n.sent ==> Marks(n, m.data, m.known))
  }

  // ---- Applying a message ----

  lemma MergedClock(a: ObjectState, b: ObjectState, r: ObjectState)
    requires MergeOf(a, b, r)
    ensures ObjectClock(r) == Lub(ObjectClock(a), ObjectClock(b))
  {
  }

  lemma ApplyAt(issued: Clock, st: StoreState, msg: StoreState, st': StoreState, k: string)
    requires AllGood(st, TickedBy(issued, false)) && AllGood(msg, TickedBy(issued, false))
    requires SyncOf(Export(st), msg, st, st')
    requires (k in st ==> Stamped(st[k])) && (k in msg ==> Stamped(msg[k]))
    ensures k in st' ==> Stamped(st'[k])
    ensures forall p :: MarkOf(st', k, p) == Larger(MarkOf(st, k, p), MarkOf(msg, k, p))
  {
    assert Synced(Export(st), msg, st, st', k);
    assert k in st ==> Ticked(issued, false, k, st[k]);
    assert k in msg ==> Ticked(issued, false, k, msg[k]);
    if k in st && k in msg { MergedClock(st[k], msg[k], st'[k]); }
  }

  lemma ShareJoins(n: Net, p: string, s: nat, t: nat, k: string)
    requires p in n.replicas ==> s <= |n.replicas[p].log| && t <= |n.replicas[p].log|
    ensures ShareMark(n, p, Larger(s, t), k) == Larger(ShareMark(n, p, s, k), ShareMark(n, p, t, k))
  {
    if p in n.replicas {
      if s <= t { LogMarkMonotone(n.replicas[p].log, s, t, k); } else { LogMarkMonotone(n.replicas[p].log, t, s, k); }
    }
  }

  lemma ApplyMarks(n: Net, issued: Clock, st: StoreState, known: Clock, msg: StoreState, known': Clock, st': StoreState)
    requires Marks(n, st, known) && Marks(n, msg, known') && SyncOf(Export(st), msg, st, st')
    requires AllGood(st, TickedBy(issued, false)) && AllGood(msg, TickedBy(issued, false))
    ensures Marks(n, st', Lub(known, known'))
  {
    forall k ensures k in st' ==> Stamped(st'[k]) { ApplyAt(issued, st, msg, st', k); }
    forall k, p ensures MarkOf(st', k, p) == ShareMark(n, p, Entry(Lub(known, known'), p), k) {
      ApplyAt(issued, st, msg, st', k);
      assert MarkOf(st, k, p) == ShareMark(n, p, Entry(known, p), k);
      assert MarkOf(msg, k, p) == ShareMark(n, p, Entry(known', p), k);
      ShareJoins(n, p, Entry(known, p), Entry(known', p), k);
      assert Entry(Lub(known, known'), p) == Larger(Entry(known, p), Entry(known', p));
    }
  }

  // ---- Local operations ----

  lemma LogMarks(n: Net, n': Net, p: string, op: Operation, st: StoreState, known: Clock)
    requires p in n.replicas && n'.replicas.Keys == n.replicas.Keys
    requires forall q :: q in n.replicas && q != p ==> n'.replicas[q] == n.replicas[q]
    requires n'.replicas[p].log == n.replicas[p].log + [op]
    requires Marks(n, st, known)
    ensures Marks(n', st, known)
  {
    forall k, q ensures MarkOf(st, k, q) == ShareMark(n', q, Entry(known, q), k) {
      assert MarkOf(st, k, q) == ShareMark(n, q, Entry(known, q), k);
      if q == p { LogMarkPrefix(n.replicas[p].log, op, Entry(known, q), k); }
    }
  }

  /** What a running node writes: an operation with a clock that has its own entry only. */
  ghost predicate Ticking(p: string, op: Operation) {
    op.nodeID == p && !op.kind.OpUnknown? && OneEntry(op.ts) && p in op.ts
  }

  lemma SubmitMarks(st: StoreState, p: string, op: Operation, k: string, q: string)
    requires Ticking(p, op) && Refusal(st, op).None? && (k in st ==> Stamped(st[k]))
    ensures k in Submit(st, op) ==> Stamped(Submit(st, op)[k])
    ensures MarkOf(Submit(st, op), k, q) == Larger(MarkOf(st, k, q), if q == p then OpMark(op, k) else 0)
  {
    if k == op.key {
      var o := if k in st then st[k] else NewObject(op);
      assert ObjectClock(Submit(st, op)[k]) == Lub(ObjectClock(o), op.ts);
    }
  }

  lemma LocalMarks(n: Net, p: string, log: seq<Operation>, op: Operation, st: StoreState, known: Clock, next: nat)
    requires p in n.replicas && n.replicas[p].log == log + [op] && Entry(known, p) == |log| && next == |log| + 1
    requires Ticking(p, op) && Refusal(st, op).None? && Marks(n, st, known)
    ensures Marks(n, Submit(st, op), known[p := next])
  {
    forall k, q
      ensures k in Submit(st, op) ==> Stamped(Submit(st, op)[k])
      ensures MarkOf(Submit(st, op), k, q) == ShareMark(n, q, Entry(known[p := next], q), k)
    {
      SubmitMarks(st, p, op, k, q);
      assert MarkOf(st, k, q) == ShareMark(n, q, Entry(known, q), k);
    }
  }

  lemma LocalMarked(n: Net, p: string, op: Operation)
    requires p in n.replicas && Refusal(n.replicas[p].store, op).None? && Ticking(p, op) && Marked(n)
    ensures Marked(AfterLocal(n, p, op))
  {
    var r, n' := n.replicas[p], AfterLocal(n, p, op);
    LocalLog(n, p, op);
    assert MarksReplica(n, p, r);
    forall q | q in n'.replicas ensures MarksReplica(n', q, n'.replicas[q]) {
      if q == p {
        LogMarks(n, n', p, op, r.store, r.known);
        LocalMarks(n', p, r.log, op, r.store, r.known, |r.log| + 1);
      } else {
        assert MarksReplica(n, q, n.replicas[q]);
        LogMarks(n, n', p, op, n.replicas[q].store, n.replicas[q].known);
      }
    }
    forall m | m in n'.sent ensures Marks(n', m.data, m.known) {
      LogMarks(n, n', p, op, m.data, m.known);
    }
  }

  lemma SameLogMarks(n: Net, n': Net, st: StoreState, known: Clock)
    requires n'.replicas.Keys == n.replicas.Keys
    requires forall q :: q in n.replicas ==> n'.replicas[q].log == n.replicas[q].log
    requires Marks(n, st, known)
    ensures Marks(n', st, known)
  {
    forall k, q ensures MarkOf(st, k, q) == ShareMark(n', q, Entry(known, q), k) {
      assert MarkOf(st, k, q) == ShareMark(n, q, Entry(known, q), k);
    }
  }

  lemma QuietMarked(n: Net, n': Net, p: string)
    requires Marked(n) && p in n.replicas && n'.replicas.Keys == n.replicas.Keys
    requires forall q :: q in n.replicas && q != p ==> n'.replicas[q] == n.replicas[q]
    requires MarksReplica(n, p, n'.replicas[p]) && n'.replicas[p].log == n.replicas[p].log
    requires forall m :: m in n'.sent ==> Marks(n, m.data, m.known)
    ensures Marked(n')
  {
    forall q | q in n'.replicas ensures MarksReplica(n', q, n'.replicas[q]) {
      assert MarksReplica(n, q, n'.replicas[q]);
      SameLogMarks(n, n', n'.replicas[q].store, n'.replicas[q].known);
    }
    forall m | m in n'.sent ensures Marks(n', m.data, m.known) {
      SameLogMarks(n, n', m.data, m.known);
    }
  }

  lemma ExportMarks(n: Net, st: StoreState, known: Clock)
    requires Marks(n, st, known)
    ensures Marks(n, Export(st), known)
  {
    forall k, p ensures MarkOf(Export(st), k, p) == ShareMark(n, p, Entry(known, p), k) {
      assert MarkOf(st, k, p) == ShareMark(n, p, Entry(known, p), k);
    }
  }

  lemma ExchangeMarked(n: Net, s: Step, n': Net, issued: Clock)
    requires Next(n, s, n') && (s.Snapshot? || s.Apply?) && Marked(n) && Everywhere(n, TickedBy(issued, false))
    ensures Marked(n')
  {
    if s.Snapshot? {
      SnapshotMarked(n, s.p, n');
    } else {
      ApplyMarked(n, s.p, s.m, n', issued);
      QuietMarked(n, n', s.p);
    }
  }

  lemma SnapshotMarked(n: Net, p: string, n': Net)
    requires Next(n, Snapshot(p), n') && Marked(n)
    ensures Marked(n')
  {
    assert MarksReplica(n, p, n.replicas[p]);
    ExportMarks(n, n.replicas[p].store, n.replicas[p].known);
    QuietMarked(n, n', p);
  }

  lemma ApplyMarked(n: Net, p: string, m: Packet, n': Net, issued: Clock)
    requires Next(n, Apply(p, m), n') && Marked(n) && Everywhere(n, TickedBy(issued, false))
    ensures MarksReplica(n, p, n'.replicas[p])
  {
    var r := n.replicas[p];
    assert MarksReplica(n, p, r) && GoodReplica(r, TickedBy(issued, false)) && Marks(n, m.data, m.known);
    ApplyMarks(n, issued, r.store, r.known, m.data, m.known, n'.replicas[p].store);
  }

  lemma ActMarked(x: System, a: Action, x': System)
    requires Invariant(x, false) && Act(x, a, x') && AtomicAction(a) && Marked(x.net)
    ensures Marked(x'.net)
  {
    match a
    case TickAdd(p) => AddMarked(x, p, x');
    case TickInc(p) => IncMarked(x, p, x');
    case Publish(p, out, _) => if out { ExchangeMarked(x.net, Snapshot(p), x'.net, Issued(x)); }
    case Exchange(s) => ExchangeMarked(x.net, s, x'.net, Issued(x));
  }

  lemma AddMarked(x: System, p: string, x': System)
    requires Invariant(x, false) && Act(x, TickAdd(p), x') && Marked(x.net)
    ensures Marked(x'.net)
  {
    TickedNet(x, TickAdd(p), x');
    AddTicks(p, x.pubs[p].counter);
    LocalMarked(x.net, p, AddOp(p, x.pubs[p].counter));
  }

  lemma IncMarked(x: System, p: string, x': System)
    requires Invariant(x, false) && Act(x, TickInc(p), x') && Marked(x.net)
    ensures Marked(x'.net)
  {
    TickedNet(x, TickInc(p), x');
    AddTicks(p, x.pubs[p].counter);
    LocalMarked(x.net, p, IncOp(p, x.pubs[p].counter));
  }

  lemma AddTicks(p: string, i: nat)
    requires |p| >= 6
    ensures Ticking(p, AddOp(p, i)) && Ticking(p, IncOp(p, i))
  {
    assert p in TickClock(p, i);
  }

  lemma {:induction false} HistoryMarks(xs: seq<System>, acts: seq<Action>, i: nat)
    requires IsHistory(xs, acts) && i < |xs| && Atomic(acts)
    ensures Marked(xs[i].net)
  {
    if i == 0 {
      StartMarked(xs[i]);
    } else {
      var before := i - 1;
      HistoryMarks(xs, acts, before);
      NextMarked(xs, acts, before, i);
    }
  }

  lemma StartMarked(x: System)
    requires Start(x)
    ensures Marked(x.net)
  {
  }

  lemma NextMarked(xs: seq<System>, acts: seq<Action>, i: nat, next: nat)
    requires IsHistory(xs, acts) && i < |acts| && next == i + 1 && Atomic(acts) && Marked(xs[i].net)
    ensures Marked(xs[next].net)
  {
    InvariantHolds(xs, acts, i, false);
    assert ActAt(xs, acts, i) && AtomicAction(acts[i]);
    ActMarked(xs[i], acts[i], xs[next]);
  }

  // ---- Equal knowledge ----

  ghost predicate SameKnown(a: Clock, b: Clock) {
    forall p :: Entry(a, p) == Entry(b, p)
  }

  lemma SameMarks(n: Net, a: StoreState, known: Clock, b: StoreState, known': Clock)
    requires Marks(n, a, known) && Marks(n, b, known') && SameKnown(known, known')
    ensures forall k :: k in a ==> k in b && ObjectClock(a[k]) == ObjectClock(b[k])
  {
    forall k | k in a ensures k in b && ObjectClock(a[k]) == ObjectClock(b[k]) {
      assert Stamped(a[k]);
      var p :| p in ObjectClock(a[k]);
      forall q ensures MarkOf(a, k, q) == MarkOf(b, k, q) {
        assert MarkOf(a, k, q) == ShareMark(n, q, Entry(known, q), k);
        assert MarkOf(b, k, q) == ShareMark(n, q, Entry(known', q), k);
      }
      assert MarkOf(a, k, p) == MarkOf(b, k, p) > 0;
      assert Stamped(b[k]);
      SameClock(ObjectClock(a[k]), ObjectClock(b[k]), a, b, k);
    }
  }

  lemma SameClock(c: Clock, d: Clock, a: StoreState, b: StoreState, k: string)
    requires k in a && k in b && c == ObjectClock(a[k]) && d == ObjectClock(b[k]) && Stamped(a[k]) && Stamped(b[k])
    requires forall p :: MarkOf(a, k, p) == MarkOf(b, k, p)
    ensures c == d
  {
    forall p ensures (p in c <==> p in d) && (p in c ==> c[p] == d[p]) {
      assert MarkOf(a, k, p) == MarkOf(b, k, p);
    }
  }

  /** Equal knowledge means equal sample sets and timestamps, ... */
  lemma SameKnowledgeSameSets(xs: seq<System>, acts: seq<Action>, t: nat, q: string, r: string)
    requires IsHistory(xs, acts) && t < |xs| && Atomic(acts) && q in xs[t].net.replicas && r in xs[t].net.replicas
    requires SameKnown(xs[t].net.replicas[q].known, xs[t].net.replicas[r].known)
    ensures var a, b := xs[t].net.replicas[q].store, xs[t].net.replicas[r].store;
            && a.Keys == b.Keys && (forall k :: k in a ==> ObjectClock(a[k]) == ObjectClock(b[k]))
            && (SAMPLE_SET in a ==> a[SAMPLE_SET] == b[SAMPLE_SET])
  {
    var n := xs[t].net;
    var a, b := n.replicas[q], n.replicas[r];
    HistoryMarks(xs, acts, t);
    assert MarksReplica(n, q, a) && MarksReplica(n, r, b);
    SameMarks(n, a.store, a.known, b.store, b.known);
    SameMarks(n, b.store, b.known, a.store, a.known);
    if SAMPLE_SET in a.store {
      assert InReplica(a, SAMPLE_SET, a.store[SAMPLE_SET]) && InReplica(b, SAMPLE_SET, b.store[SAMPLE_SET]);
      TimestampDecidesSet(xs, acts, t, a.store[SAMPLE_SET], b.store[SAMPLE_SET]);
    }
  }

  /** ... and, up to 18,446,744,073,709 increments, equal counters: in every history with atomic applies, nodes that
      have absorbed the same operations of each node, directly or through others, have equal stores. */
  lemma SameKnowledgeSameStores(xs: seq<System>, acts: seq<Action>, t: nat, q: string, r: string)
    requires IsHistory(xs, acts) && t < |xs| && Atomic(acts) && q in xs[t].net.replicas && r in xs[t].net.replicas
    requires SameKnown(xs[t].net.replicas[q].known, xs[t].net.replicas[r].known)
    requires xs[t].net.increments <= 18446744073709
    ensures xs[t].net.replicas[q].store == xs[t].net.replicas[r].store
  {
    var a, b := xs[t].net.replicas[q].store, xs[t].net.replicas[r].store;
    SameKnowledgeSameSets(xs, acts, t, q, r);
    var ns, steps := HistoryIsRun(xs, acts, t);
    RunsAreExact(ns, steps, SampleSets(), |steps|);
    forall k | k in a ensures a[k] == b[k] {
      if k != SAMPLE_SET { SameCounter(xs, acts, t, q, r, k); }
    }
  }

  lemma SameCounter(xs: seq<System>, acts: seq<Action>, t: nat, q: string, r: string, k: string)
    requires IsHistory(xs, acts) && t < |xs| && q in xs[t].net.replicas && r in xs[t].net.replicas
    requires Exact(xs[t].net, SampleSets()) && SameKnown(xs[t].net.replicas[q].known, xs[t].net.replicas[r].known)
    requires k != SAMPLE_SET && k in xs[t].net.replicas[q].store && k in xs[t].net.replicas[r].store
    requires var a, b := xs[t].net.replicas[q].store, xs[t].net.replicas[r].store;
             ObjectClock(a[k]) == ObjectClock(b[k])
    ensures xs[t].net.replicas[q].store[k] == xs[t].net.replicas[r].store[k]
  {
    var p := CounterOf(xs, acts, t, q, k);
    var n := xs[t].net;
    OwnWordHolds(xs, acts, t, p);
    InvariantHolds(xs, acts, t, false);
    CopyIsWord(n, q, k, p, Issued(xs[t]));
    CopyIsWord(n, r, k, p, Issued(xs[t]));
    SameEntry(n, q, r, k, p);
    EqualCounters(n.replicas[q].store, n.replicas[r].store, k, p);
  }

  lemma CounterOf(xs: seq<System>, acts: seq<Action>, t: nat, q: string, k: string) returns (p: string)
    requires IsHistory(xs, acts) && t < |xs| && q in xs[t].net.replicas
    requires k != SAMPLE_SET && k in xs[t].net.replicas[q].store
    ensures p in xs[t].pubs && |p| >= 6 && k == CounterKey(p)
  {
    InvariantHolds(xs, acts, t, false);
    GoodAt(xs[t], q);
    assert Ticked(Issued(xs[t]), false, k, xs[t].net.replicas[q].store[k]);
    p :| p in Issued(xs[t]) && |p| >= 6 && k == CounterKey(p);
  }

  /** A copy of p's counter is decided by p's entry and the timestamp. */
  ghost predicate WordAt(st: StoreState, k: string, p: string) {
    k in st && st[k].ACounter? && st[k].c.key == k && st[k].c.counters.Keys == {p}
  }

  lemma CopyIsWord(n: Net, q: string, k: string, p: string, issued: Clock)
    requires |p| >= 6 && k == CounterKey(p) && q in n.replicas && k in n.replicas[q].store && k != SAMPLE_SET
    requires Everywhere(n, OwnWord(p)) && Everywhere(n, TickedBy(issued, false))
    ensures WordAt(n.replicas[q].store, k, p)
  {
    var r := n.replicas[q];
    assert GoodReplica(r, OwnWord(p)) && GoodReplica(r, TickedBy(issued, false));
    assert OwnWord(p)(k, r.store[k]) && Ticked(issued, false, k, r.store[k]);
  }

  lemma EqualCounters(a: StoreState, b: StoreState, k: string, p: string)
    requires WordAt(a, k, p) && WordAt(b, k, p) && ObjectClock(a[k]) == ObjectClock(b[k])
    requires CounterEntry(a, k, p) == CounterEntry(b, k, p)
    ensures a[k] == b[k]
  {
    assert a[k].c.counters == b[k].c.counters;
  }

  lemma SameEntry(n: Net, q: string, r: string, k: string, p: string)
    requires Exact(n, SampleSets()) && q in n.replicas && r in n.replicas
    requires SameKnown(n.replicas[q].known, n.replicas[r].known)
    ensures CounterEntry(n.replicas[q].store, k, p) == CounterEntry(n.replicas[r].store, k, p)
  {
    var a, b := n.replicas[q], n.replicas[r];
    assert ExactReplica(n, SampleSets(), q, a) && ExactReplica(n, SampleSets(), r, b);
    assert CounterEntry(a.store, k, p) == Share(n, p, Entry(a.known, p), k);
    assert CounterEntry(b.store, k, p) == Share(n, p, Entry(b.known, p), k);
  }
}
