/** Counters when every node increments its own entry and messages are applied atomically: a
    replica's counters are exactly the sums of the operations it has absorbed. */
module Absorption {
  import opened Clocks
  import opened Crdts
  import opened Engines
  import opened Network

  /** The increments of counter k among the first t operations of a log. */
  function Credited(log: seq<Operation>, t: nat, k: string): nat
    requires t <= |log|
  {
    if t == 0 then 0
    else
      var op := log[t - 1];
      Credited(log, t - 1, k) + if op.kind == OpCounterInc && op.key == k then op.value else 0
  }

  lemma {:induction false} CreditedMonotone(log: seq<Operation>, s: nat, t: nat, k: string)
    requires s <= t <= |log|
    ensures Credited(log, s, k) <= Credited(log, t, k)
  {
    if s < t { CreditedMonotone(log, s, t - 1, k); }
  }

  lemma {:induction false} CreditedPrefix(log: seq<Operation>, op: Operation, t: nat, k: string)
    requires t <= |log|
    ensures Credited(log + [op], t, k) == Credited(log, t, k)
  {
    if t > 0 { CreditedPrefix(log, op, t - 1, k); }
  }

  /** Operations that keep sets and counters apart. */
  predicate Apart(op: Operation, sets: iset<string>) {
    if op.kind == OpCounterInc then op.key !in sets else op.kind.OpUnknown? || op.key in sets
  }

  /** Counters and sets do not share keys, counters are only incremented by their entry's node,
      and messages are applied in one step. */
  ghost predicate Disciplined(s: Step, sets: iset<string>) {
    match s
    case Local(p, op) =>
      Apart(op, sets) && (op.kind == OpCounterInc ==> op.nodeID == p)
    case Snapshot(_) => true
    case Apply(_, _) => true
    case Prune(_, _) => true
    case _ => false
  }

  function CounterEntry(st: StoreState, k: string, p: string): nat {
    if k in st && st[k].ACounter? then Entry(st[k].c.counters, p) else 0
  }

  /** What node p added to counter k in its first t operations. */
  ghost function Share(n: Net, p: string, t: nat, k: string): nat {
    if p in n.replicas && t <= |n.replicas[p].log| then Credited(n.replicas[p].log, t, k) else 0
  }

  ghost predicate Fitting(st: StoreState, sets: iset<string>) {
    forall k :: k in st ==> st[k].Key() == k && (st[k].ASet? <==> k in sets)
  }

  ghost predicate Known(n: Net, known: Clock) {
    forall p :: p in known ==> p in n.replicas && known[p] <= |n.replicas[p].log|
  }

  /** Every counter entry of the state is exactly the sum of the absorbed operations of its node. */
  ghost predicate Reflects(n: Net, sets: iset<string>, st: StoreState, known: Clock) {
    && Fitting(st, sets) && Known(n, known)
    && forall k, p :: CounterEntry(st, k, p) == Share(n, p, Entry(known, p), k)
  }

  ghost predicate Exact(n: Net, sets: iset<string>) {
    && (forall r :: r in n.replicas ==> ExactReplica(n, sets, r, n.replicas[r]))
    && (forall m :: m in n.sent ==> Reflects(n, sets, m.data, m.known))
  }

  ghost predicate ExactReplica(n: Net, sets: iset<string>, p: string, r: Replica) {
    r.applying.None? && Entry(r.known, p) == |r.log| && Reflects(n, sets, r.store, r.known)
  }

  /** The entry in st' is the larger one of st and msg. */
  predicate LargerEntry(st: StoreState, msg: StoreState, st': StoreState, k: string, p: string) {
    var a, b, c := CounterEntry(st, k, p), CounterEntry(msg, k, p), CounterEntry(st', k, p);
    c >= a && c >= b && (c == a || c == b)
  }

  lemma ApplyReflects(n: Net, sets: iset<string>, st: StoreState, known: Clock, msg: StoreState, known': Clock,
                      st': StoreState)
    requires Reflects(n, sets, st, known) && Reflects(n, sets, msg, known') && SyncOf(Export(st), msg, st, st')
    ensures Reflects(n, sets, st', Lub(known, known'))
  {
    forall k ensures (k in st' ==> st'[k].Key() == k && (st'[k].ASet? <==> k in sets))
                     && (k in st || k in msg ==> k in st')
                     && forall p :: LargerEntry(st, msg, st', k, p) {
      assert Synced(Export(st), msg, st, st', k);
    }
    forall k, p ensures CounterEntry(st', k, p) == Share(n, p, Entry(Lub(known, known'), p), k) {
      assert CounterEntry(st, k, p) == Share(n, p, Entry(known, p), k);
      assert CounterEntry(msg, k, p) == Share(n, p, Entry(known', p), k);
      assert LargerEntry(st, msg, st', k, p);
      if p in n.replicas {
        var log, s, t := n.replicas[p].log, Entry(known, p), Entry(known', p);
        if s <= t { CreditedMonotone(log, s, t, k); } else { CreditedMonotone(log, t, s, k); }
      }
    }
  }

  /** Another operation in a log changes no share already absorbed. */
  lemma LogReflects(n: Net, n': Net, p: string, op: Operation, sets: iset<string>, st: StoreState, known: Clock)
    requires p in n.replicas && n'.replicas.Keys == n.replicas.Keys
    requires forall q :: q in n.replicas && q != p ==> n'.replicas[q] == n.replicas[q]
    requires n'.replicas[p].log == n.replicas[p].log + [op]
    requires Reflects(n, sets, st, known)
    ensures Reflects(n', sets, st, known)
  {
    forall k, q ensures CounterEntry(st, k, q) == Share(n', q, Entry(known, q), k) {
      assert CounterEntry(st, k, q) == Share(n, q, Entry(known, q), k);
      if q == p { CreditedPrefix(n.replicas[p].log, op, Entry(known, q), k); }
    }
  }

  lemma EntryWithinSum(m: Clock, n: string)
    ensures Entry(m, n) <= Sum(m)
  {
  }

  lemma NoWrap(n: Net, p: string, op: Operation)
    requires p in n.replicas && Bounded(n) && op.kind == OpCounterInc && op.value <= 1000000
    requires n.increments < 18446744073709
    ensures CounterEntry(n.replicas[p].store, op.key, op.nodeID) + op.value < U64
  {
    var st := n.replicas[p].store;
    if op.key in st { assert Covered(n.issued, op.key, st[op.key]); }
    EntryWithinSum(IssuedFor(n.issued, op.key), op.nodeID);
  }

  lemma SubmitFits(st: StoreState, op: Operation, sets: iset<string>)
    requires Fitting(st, sets) && Apart(op, sets) && Refusal(st, op).None?
    ensures Fitting(Submit(st, op), sets)
  {
  }

  /** An accepted increment adds to its own entry and to no other; other operations to none. */
  lemma SubmitEntry(st: StoreState, op: Operation, sets: iset<string>, k: string, q: string)
    requires Fitting(st, sets) && Apart(op, sets) && Refusal(st, op).None?
    requires op.kind == OpCounterInc ==> CounterEntry(st, op.key, op.nodeID) + op.value < U64
    ensures CounterEntry(Submit(st, op), k, q)
            == CounterEntry(st, k, q) + if op.kind == OpCounterInc && k == op.key && q == op.nodeID then op.value else 0
  {
  }

  /** An operation accepted and added to its node's log is reflected like those before it. */
  lemma LocalReflects(n: Net, p: string, log: seq<Operation>, op: Operation, sets: iset<string>, st: StoreState,
                      known: Clock)
    requires p in n.replicas && n.replicas[p].log == log + [op] && Entry(known, p) == |log|
    requires Apart(op, sets) && (op.kind == OpCounterInc ==> op.nodeID == p) && Refusal(st, op).None?
    requires op.kind == OpCounterInc ==> CounterEntry(st, op.key, p) + op.value < U64
    requires Reflects(n, sets, st, known)
    ensures Reflects(n, sets, Submit(st, op), known[p := |log| + 1])
  {
    SubmitFits(st, op, sets);
    forall k, q ensures CounterEntry(Submit(st, op), k, q) == Share(n, q, Entry(known[p := |log| + 1], q), k) {
      SubmitEntry(st, op, sets, k, q);
      assert CounterEntry(st, k, q) == Share(n, q, Entry(known, q), k);
    }
  }

  lemma LocalLog(n: Net, p: string, op: Operation)
    requires p in n.replicas && Refusal(n.replicas[p].store, op).None?
    ensures var r, r' := n.replicas[p], AfterLocal(n, p, op).replicas[p];
            && r' == Replica(Submit(r.store, op), r.applying, r.log + [op], r.known[p := |r.log| + 1])
    ensures AfterLocal(n, p, op).replicas.Keys == n.replicas.Keys && AfterLocal(n, p, op).sent == n.sent
    ensures forall q :: q in n.replicas && q != p ==> AfterLocal(n, p, op).replicas[q] == n.replicas[q]
  {
  }

  lemma LocalExact(n: Net, p: string, op: Operation, sets: iset<string>)
    requires p in n.replicas && Disciplined(Local(p, op), sets) && Exact(n, sets) && Bounded(n)
    requires AfterLocal(n, p, op).increments <= 18446744073709
    ensures Exact(AfterLocal(n, p, op), sets)
  {
    var r, n' := n.replicas[p], AfterLocal(n, p, op);
    if Refusal(r.store, op).None? {
      if op.kind == OpCounterInc { NoWrap(n, p, op); }
      assert ExactReplica(n, sets, p, r);
      LocalLog(n, p, op);
      OthersExact(n, n', p, op, sets);
      LogReflects(n, n', p, op, sets, r.store, r.known);
      LocalReflects(n', p, r.log, op, sets, r.store, r.known);
      assert ExactReplica(n', sets, p, n'.replicas[p]);
    }
  }

  /** Another operation in the log of p leaves the other nodes and the messages exact. */
  lemma OthersExact(n: Net, n': Net, p: string, op: Operation, sets: iset<string>)
    requires Exact(n, sets) && p in n.replicas && n'.replicas.Keys == n.replicas.Keys && n'.sent == n.sent
    requires forall q :: q in n.replicas && q != p ==> n'.replicas[q] == n.replicas[q]
    requires n'.replicas[p].log == n.replicas[p].log + [op]
    ensures forall q :: q in n'.replicas && q != p ==> ExactReplica(n', sets, q, n'.replicas[q])
    ensures forall m :: m in n'.sent ==> Reflects(n', sets, m.data, m.known)
  {
    forall q | q in n'.replicas && q != p ensures ExactReplica(n', sets, q, n'.replicas[q]) {
      assert ExactReplica(n, sets, q, n.replicas[q]);
      LogReflects(n, n', p, op, sets, n.replicas[q].store, n.replicas[q].known);
    }
    forall m | m in n.sent ensures Reflects(n', sets, m.data, m.known) {
      LogReflects(n, n', p, op, sets, m.data, m.known);
    }
  }

  /** A step that adds to no log keeps a net exact if what it stores or sends is. */
  lemma QuietExact(n: Net, n': Net, p: string, sets: iset<string>)
    requires Exact(n, sets) && p in n.replicas && n'.replicas.Keys == n.replicas.Keys
    requires forall q :: q in n.replicas && q != p ==> n'.replicas[q] == n.replicas[q]
    requires ExactReplica(n, sets, p, n'.replicas[p]) && n'.replicas[p].log == n.replicas[p].log
    requires forall m :: m in n'.sent ==> Reflects(n, sets, m.data, m.known)
    ensures Exact(n', sets)
  {
    forall q | q in n'.replicas ensures ExactReplica(n', sets, q, n'.replicas[q]) {
      assert ExactReplica(n, sets, q, n'.replicas[q]);
      SameLogs(n, n', sets, n'.replicas[q].store, n'.replicas[q].known);
    }
    forall m | m in n'.sent ensures Reflects(n', sets, m.data, m.known) {
      SameLogs(n, n', sets, m.data, m.known);
    }
  }

  lemma ExportFitting(st: StoreState, sets: iset<string>)
    requires Fitting(st, sets)
    ensures Export(st) == st
  {
  }

  lemma ApplyExact(n: Net, p: string, m: Packet, n': Net, sets: iset<string>)
    requires Next(n, Apply(p, m), n') && Exact(n, sets)
    ensures ExactReplica(n, sets, p, n'.replicas[p])
  {
    var r, r' := n.replicas[p], n'.replicas[p];
    assert ExactReplica(n, sets, p, r);
    ApplyReflects(n, sets, r.store, r.known, m.data, m.known, r'.store);
    assert Known(n, m.known);
    assert Entry(r'.known, p) == |r.log|;
  }

  /** Pruning touches no counter entry. */
  lemma PruneReflects(n: Net, sets: iset<string>, st: StoreState, known: Clock, active: set<string>)
    requires Reflects(n, sets, st, known)
    ensures Reflects(n, sets, PrunedStore(st, active), known)
  {
  }

  lemma ExactStep(n: Net, s: Step, n': Net, sets: iset<string>)
    requires Next(n, s, n') && Disciplined(s, sets) && Exact(n, sets) && Bounded(n) && n'.increments <= 18446744073709
    ensures Exact(n', sets)
  {
    if s.Local? {
      LocalExact(n, s.p, s.op, sets);
    } else {
      OtherStepExact(n, s, n', sets);
    }
  }

  lemma OtherStepExact(n: Net, s: Step, n': Net, sets: iset<string>)
    requires Next(n, s, n') && Disciplined(s, sets) && !s.Local? && Exact(n, sets)
    ensures Exact(n', sets)
  {
    assert ExactReplica(n, sets, s.p, n.replicas[s.p]);
    if s.Snapshot? {
      ExportFitting(n.replicas[s.p].store, sets);
    } else if s.Prune? {
      PruneReflects(n, sets, n.replicas[s.p].store, n.replicas[s.p].known, s.active);
    } else {
      ApplyExact(n, s.p, s.m, n', sets);
    }
    QuietExact(n, n', s.p, sets);
  }

  lemma SameLogs(n: Net, n': Net, sets: iset<string>, st: StoreState, known: Clock)
    requires n'.replicas.Keys == n.replicas.Keys && forall q :: q in n.replicas
                                                      ==> n'.replicas[q].log == n.replicas[q].log
    requires Reflects(n, sets, st, known)
    ensures Reflects(n', sets, st, known)
  {
  }

  lemma {:induction false} RunsAreExact(ns: seq<Net>, steps: seq<Step>, sets: iset<string>, i: nat)
    requires IsRun(ns, steps) && i < |ns| && (forall s :: s in steps ==> Disciplined(s, sets))
    requires ns[i].increments <= 18446744073709
    ensures Exact(ns[i], sets)
  {
    if i == 0 {
      InitExact(ns[i], sets);
    } else {
      var before := i - 1;
      FewerBefore(ns, steps, before);
      RunsAreExact(ns, steps, sets, before);
      ExactNext(ns, steps, sets, before, i);
    }
  }

  lemma FewerBefore(ns: seq<Net>, steps: seq<Step>, i: nat)
    requires IsRun(ns, steps) && i < |steps|
    ensures ns[i].increments <= ns[i + 1].increments
  {
    assert NextAt(ns, steps, i);
    IncrementsGrow(ns[i], steps[i], ns[i + 1]);
  }

  lemma ExactNext(ns: seq<Net>, steps: seq<Step>, sets: iset<string>, i: nat, next: nat)
    requires IsRun(ns, steps) && i < |steps| && next == i + 1 && (forall s :: s in steps ==> Disciplined(s, sets))
    requires ns[next].increments <= 18446744073709 && Exact(ns[i], sets)
    ensures Exact(ns[next], sets)
  {
    RunsAreBounded(ns, steps, i);
    assert NextAt(ns, steps, i) && steps[i] in steps;
    ExactStep(ns[i], steps[i], ns[next], sets);
  }

  lemma IncrementsGrow(n: Net, s: Step, n': Net)
    requires Next(n, s, n')
    ensures n.increments <= n'.increments
  {
  }

  lemma InitExact(n: Net, sets: iset<string>)
    requires Init(n)
    ensures Exact(n, sets)
  {
  }

  /** Everything the nodes of the network have added to counter k. */
  ghost function Shares(n: Net, known: Clock, k: string): Clock {
    map p | p in n.replicas :: Share(n, p, Entry(known, p), k)
  }

  ghost function LogLengths(n: Net): Clock {
    map p | p in n.replicas :: |n.replicas[p].log|
  }

  /** A counter's entries are its nodes' shares, and so is its total. */
  lemma TotalIsShares(n: Net, sets: iset<string>, st: StoreState, known: Clock, k: string)
    requires Reflects(n, sets, st, known) && k in st && k !in sets
    ensures forall p :: Entry(st[k].c.counters, p) == Entry(Shares(n, known, k), p)
    ensures Sum(st[k].c.counters) == Sum(Shares(n, known, k))
  {
    var c, mine := st[k].c.counters, Shares(n, known, k);
    forall p ensures Entry(c, p) == Entry(mine, p) {
      assert CounterEntry(st, k, p) == Share(n, p, Entry(known, p), k);
    }
    SumMonotone(c, mine);
    SumMonotone(mine, c);
  }

  lemma SharesBelowIssued(n: Net, known: Clock, k: string)
    requires Known(n, known)
    ensures forall p :: Entry(Shares(n, known, k), p) <= Entry(Shares(n, LogLengths(n), k), p)
    ensures Sum(Shares(n, known, k)) <= Sum(Shares(n, LogLengths(n), k))
  {
    forall p ensures Entry(Shares(n, known, k), p) <= Entry(Shares(n, LogLengths(n), k), p) {
      if p in n.replicas { CreditedMonotone(n.replicas[p].log, Entry(known, p), |n.replicas[p].log|, k); }
    }
    SumMonotone(Shares(n, known, k), Shares(n, LogLengths(n), k));
  }

  ghost predicate AbsorbedAll(n: Net, known: Clock) {
    forall p :: p in n.replicas ==> Entry(known, p) == |n.replicas[p].log|
  }

  /** In a net where counters are exact: node r's own entry is everything r added, and r's copy of
      another node's entry is not larger than that node's own. */
  lemma OwnEntryIsLargest(n: Net, sets: iset<string>, r: string, p: string, k: string)
    requires Exact(n, sets) && r in n.replicas && p in n.replicas
    ensures CounterEntry(n.replicas[r].store, k, p) <= CounterEntry(n.replicas[p].store, k, p)
    ensures CounterEntry(n.replicas[p].store, k, p) == Credited(n.replicas[p].log, |n.replicas[p].log|, k)
  {
    var a, b := n.replicas[r], n.replicas[p];
    assert ExactReplica(n, sets, r, a) && ExactReplica(n, sets, p, b);
    assert CounterEntry(a.store, k, p) == Share(n, p, Entry(a.known, p), k);
    assert CounterEntry(b.store, k, p) == Share(n, p, |b.log|, k);
    CreditedMonotone(b.log, Entry(a.known, p), |b.log|, k);
  }

  /** In every such run a replica's counter value is exactly the sum of what it has absorbed, never
      exceeds the true total, and equals it once the replica has absorbed, directly or through
      others, every node's operations. */
  lemma CountersAreExact(ns: seq<Net>, steps: seq<Step>, sets: iset<string>, i: nat, r: string, k: string)
    requires IsRun(ns, steps) && i < |ns| && (forall s :: s in steps ==> Disciplined(s, sets))
    requires ns[i].increments <= 18446744073709 && r in ns[i].replicas
    requires k in ns[i].replicas[r].store && ns[i].replicas[r].store[k].ACounter?
    ensures var total, known := Sum(ns[i].replicas[r].store[k].c.counters), ns[i].replicas[r].known;
            && Wrap(total) == Sum(Shares(ns[i], known, k)) <= Sum(Shares(ns[i], LogLengths(ns[i]), k))
            && (AbsorbedAll(ns[i], known) ==> Wrap(total) == Sum(Shares(ns[i], LogLengths(ns[i]), k)))
  {
    RunsAreExact(ns, steps, sets, i);
    CounterNeverExceedsIssued(ns, steps, i, r, k);
    ExactTotal(ns[i], sets, r, k);
  }

  lemma ExactTotal(n: Net, sets: iset<string>, r: string, k: string)
    requires Exact(n, sets) && r in n.replicas && k in n.replicas[r].store && n.replicas[r].store[k].ACounter?
    ensures var total, known := Sum(n.replicas[r].store[k].c.counters), n.replicas[r].known;
            && total == Sum(Shares(n, known, k)) <= Sum(Shares(n, LogLengths(n), k))
            && (AbsorbedAll(n, known) ==> total == Sum(Shares(n, LogLengths(n), k)))
  {
    var st, known := n.replicas[r].store, n.replicas[r].known;
    TotalIsShares(n, sets, st, known, k);
    SharesBelowIssued(n, known, k);
    if AbsorbedAll(n, known) { assert Shares(n, known, k) == Shares(n, LogLengths(n), k); }
  }

  /** Replicas that have absorbed the same operations agree on every counter. */
  lemma SameKnowledgeSameCounters(n: Net, sets: iset<string>, q: string, r: string, k: string)
    requires Exact(n, sets) && q in n.replicas && r in n.replicas
    requires forall p :: Entry(n.replicas[q].known, p) == Entry(n.replicas[r].known, p)
    requires k in n.replicas[q].store && k in n.replicas[r].store && k !in sets
    ensures Sum(n.replicas[q].store[k].c.counters) == Sum(n.replicas[r].store[k].c.counters)
  {
    var a, b := n.replicas[q], n.replicas[r];
    TotalIsShares(n, sets, a.store, a.known, k);
    TotalIsShares(n, sets, b.store, b.known, k);
    assert Shares(n, a.known, k) == Shares(n, b.known, k);
  }
}
