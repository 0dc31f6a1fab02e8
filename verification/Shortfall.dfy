/** What the unlocked gap between snapshot and install costs a running node's counter, and when the
    counter never makes up for it. */
module Shortfall {
  import opened Clocks
  import opened Crdts
  import opened Engines
  import opened LocalData
  import opened Network
  import opened Absorption
  import opened Protocol
  import opened Running
  import opened Gap
  import opened Loss

  /** p's entry of its own counter in a store, ... */
  function OwnEntry(st: StoreState, p: string): nat
    requires |p| >= 6
  {
    CounterEntry(st, CounterKey(p), p)
  }

  /** ... and all that p has added to it. */
  function TotalAdded(n: Net, p: string): nat
    requires |p| >= 6
  {
    Entry(IssuedFor(n.issued, CounterKey(p)), p)
  }

  /** What a read of p's counter shows. */
  ghost function CountShown(st: StoreState, p: string): nat
    requires |p| >= 6
  {
    var k := CounterKey(p);
    if k in st && st[k].ACounter? then Wrap(Sum(st[k].c.counters)) else 0
  }

  /** Entries are uint64. */
  function Plus(e: nat, n: nat): (r: nat)
    ensures r <= e + n && r < U64 && (e + n < U64 ==> r == e + n)
  {
    Wrap(e + n)
  }

  // ---- A counter has its publisher's entry only ----

  /** Entries are uint64, and p's counter has p's entry and no other. */
  ghost function OwnWord(p: string): Good
    requires |p| >= 6
  {
    (k: string, o: ObjectState) =>
      k == CounterKey(p) && o.ACounter? ==> o.c.counters.Keys == {p} && o.c.counters[p] < U64
  }

  lemma OwnWordClosed(p: string)
    requires |p| >= 6
    ensures Closed(OwnWord(p))
  {
  }

  lemma OtherKey(pubs: map<string, Publisher>, p: string, q: string)
    requires ValidNodes(pubs) && p in pubs && q in pubs && p != q && |p| >= 6 && |q| >= 6
    ensures CounterKey(p) != CounterKey(q)
  {
    assert CounterKey(p)[..6] == Suffix(p) && CounterKey(q)[..6] == Suffix(q);
  }

  lemma NotTheSet(p: string)
    requires |p| >= 6
    ensures CounterKey(p) != SAMPLE_SET
  {
    assert |CounterKey(p)| == 14 && |SAMPLE_SET| == 10;
  }

  /** An add leaves every counter as it was, ... */
  lemma AddLeaves(st: StoreState, q: string, i: nat, p: string)
    requires |p| >= 6 && |q| >= 6 && Refusal(st, AddOp(q, i)).None?
    ensures var st', k := Submit(st, AddOp(q, i)), CounterKey(p);
            SameAt(st, st', k) && OwnEntry(st', p) == OwnEntry(st, p)
  {
    NotTheSet(p);
  }

  /** ... an increment touches its node's counter only, ... */
  lemma IncLeaves(st: StoreState, q: string, i: nat, p: string)
    requires |p| >= 6 && |q| >= 6 && CounterKey(p) != CounterKey(q) && Refusal(st, IncOp(q, i)).None?
    ensures var st', k := Submit(st, IncOp(q, i)), CounterKey(p);
            SameAt(st, st', k) && OwnEntry(st', p) == OwnEntry(st, p)
  {
  }

  /** ... and adds one to its entry. */
  lemma IncAdds(st: StoreState, p: string, i: nat)
    requires |p| >= 6 && Refusal(st, IncOp(p, i)).None?
    ensures var st', k := Submit(st, IncOp(p, i)), CounterKey(p);
            && k in st' && st'[k].ACounter? && OwnEntry(st', p) == Plus(OwnEntry(st, p), 1)
            && st'[k].c.counters.Keys == (if k in st && st[k].ACounter? then st[k].c.counters.Keys else {}) + {p}
  {
  }

  lemma OwnWordStep(x: System, a: Action, x': System, p: string)
    requires Invariant(x, false) && Act(x, a, x') && p in x.pubs && |p| >= 6 && Everywhere(x.net, OwnWord(p))
    ensures Everywhere(x'.net, OwnWord(p))
  {
    OwnWordClosed(p);
    match a
    case TickAdd(q) => OwnWordAdd(x, q, x', p);
    case TickInc(q) => OwnWordInc(x, q, x', p);
    case Publish(q, out, _) => if out { StepKeeps(x.net, Snapshot(q), x'.net, OwnWord(p)); }
    case Exchange(s) => StepKeeps(x.net, s, x'.net, OwnWord(p));
  }

  lemma OwnWordAdd(x: System, q: string, x': System, p: string)
    requires Invariant(x, false) && Act(x, TickAdd(q), x') && |p| >= 6 && Everywhere(x.net, OwnWord(p))
    ensures Everywhere(x'.net, OwnWord(p))
  {
    var st, i := x.net.replicas[q].store, x.pubs[q].counter;
    TickReady(x, q, false);
    TickAccepted(Issued(x), false, st, q, i);
    AddLeaves(st, q, i, p);
    LocalKeeps(x.net, q, AddOp(q, i), OwnWord(p));
  }

  lemma IncKeepsWord(pubs: map<string, Publisher>, st: StoreState, q: string, i: nat, p: string)
    requires ValidNodes(pubs) && p in pubs && q in pubs && |p| >= 6 && |q| >= 6
    requires Refusal(st, IncOp(q, i)).None? && AllGood(st, OwnWord(p))
    ensures AllGood(Submit(st, IncOp(q, i)), OwnWord(p))
  {
    var st', k := Submit(st, IncOp(q, i)), CounterKey(p);
    if q == p { IncAdds(st, p, i); } else { OtherKey(pubs, p, q); IncLeaves(st, q, i, p); }
    assert k in st ==> OwnWord(p)(k, st[k]);
    assert k in st' ==> OwnWord(p)(k, st'[k]);
  }

  lemma OwnWordInc(x: System, q: string, x': System, p: string)
    requires Invariant(x, false) && Act(x, TickInc(q), x') && p in x.pubs && |p| >= 6
    requires Everywhere(x.net, OwnWord(p))
    ensures Everywhere(x'.net, OwnWord(p))
  {
    var st, i := x.net.replicas[q].store, x.pubs[q].counter;
    TickReady(x, q, false);
    TickAccepted(Issued(x), false, st, q, i);
    IncKeepsWord(x.pubs, st, q, i, p);
    LocalKeeps(x.net, q, IncOp(q, i), OwnWord(p));
  }

  lemma {:induction false} OwnWordHolds(xs: seq<System>, acts: seq<Action>, i: nat, p: string)
    requires IsHistory(xs, acts) && i < |xs| && p in xs[i].pubs && |p| >= 6
    ensures Everywhere(xs[i].net, OwnWord(p))
  {
    if i == 0 {
      StartWord(xs[i], p);
    } else {
      var before := i - 1;
      HistoryGrows(xs, acts, before, i, p);
      OwnWordHolds(xs, acts, before, p);
      OwnWordNext(xs, acts, before, i, p);
    }
  }

  lemma StartWord(x: System, p: string)
    requires Start(x) && |p| >= 6
    ensures Everywhere(x.net, OwnWord(p))
  {
  }

  lemma OwnWordNext(xs: seq<System>, acts: seq<Action>, i: nat, next: nat, p: string)
    requires IsHistory(xs, acts) && i < |acts| && next == i + 1 && p in xs[i].pubs && |p| >= 6
    requires Everywhere(xs[i].net, OwnWord(p))
    ensures Everywhere(xs[next].net, OwnWord(p))
  {
    InvariantHolds(xs, acts, i, false);
    assert ActAt(xs, acts, i);
    OwnWordStep(xs[i], acts[i], xs[next], p);
  }

  lemma ShownIsEntry(st: StoreState, p: string)
    requires |p| >= 6 && AllGood(st, OwnWord(p))
    ensures ReadsEntry(st, p)
  {
    var k, good := CounterKey(p), OwnWord(p);
    if k in st && st[k].ACounter? {
      var c := st[k].c.counters;
      assert good(k, st[k]);
      SumPicks(c, p);
      assert c - {p} == map[];
    }
  }

  // ---- From snapshot to install ----

  lemma InstallEntry(issued: Clock, snap: StoreState, msg: StoreState, st: StoreState, st': StoreState, p: string)
    requires |p| >= 6 && AllGood(snap, TickedBy(issued, false)) && AllGood(msg, TickedBy(issued, false))
    requires CounterKey(p) in msg && SyncOf(snap, map k | k in msg && k == CounterKey(p) :: msg[k], st, st')
    ensures OwnEntry(st', p) == Larger(OwnEntry(snap, p), OwnEntry(msg, p))
  {
    var key := CounterKey(p);
    NotTheSet(p);
    assert Synced(snap, map k | k in msg && k == key :: msg[k], st, st', key);
    assert Ticked(issued, false, key, msg[key]);
    assert key in snap ==> Ticked(issued, false, key, snap[key]);
  }

  function Larger(a: nat, b: nat): nat {
    if a < b then b else a
  }

  lemma OtherInstallEntry(snap: StoreState, msg: StoreState, key: string, st: StoreState, st': StoreState, p: string)
    requires |p| >= 6 && SyncOf(snap, map k | k in msg && k == key :: msg[k], st, st') && key != CounterKey(p)
    ensures OwnEntry(st', p) == OwnEntry(st, p)
  {
    assert Synced(snap, map k | k in msg && k == key :: msg[k], st, st', CounterKey(p));
  }

  lemma ApplyEntry(issued: Clock, msg: StoreState, st: StoreState, st': StoreState, p: string)
    requires |p| >= 6 && AllGood(st, TickedBy(issued, false)) && AllGood(msg, TickedBy(issued, false))
    requires SyncOf(Export(st), msg, st, st')
    ensures OwnEntry(st', p) == Larger(OwnEntry(st, p), OwnEntry(msg, p))
  {
    var key := CounterKey(p);
    NotTheSet(p);
    assert Synced(Export(st), msg, st, st', key);
    assert key in msg ==> Ticked(issued, false, key, msg[key]);
    assert key in st ==> Ticked(issued, false, key, st[key]);
  }

  lemma ExportEntry(st: StoreState, p: string)
    requires |p| >= 6
    ensures OwnEntry(Export(st), p) == OwnEntry(st, p)
  {
  }

  /** An entry e of p after one step, ... */
  function Counted(e: nat, a: Action, p: string): nat {
    if a == TickInc(p) then Plus(e, 1) else e
  }

  /** ... and after the steps from t to u. */
  function CountedTo(e: nat, acts: seq<Action>, p: string, t: nat, u: nat): nat
    requires t <= u <= |acts|
  {
    if t == u then e else Counted(CountedTo(e, acts, p, t, u - 1), acts[u - 1], p)
  }

  /** How often p increments from t to u. */
  function IncsBetween(acts: seq<Action>, p: string, t: nat, u: nat): nat
    requires t <= u <= |acts|
  {
    if t == u then 0 else IncsBetween(acts, p, t, u - 1) + if acts[u - 1] == TickInc(p) then 1 else 0
  }

  lemma {:induction false} CountedSum(e: nat, acts: seq<Action>, p: string, t: nat, u: nat)
    requires t <= u <= |acts| && e < U64
    ensures CountedTo(e, acts, p, t, u) == Plus(e, IncsBetween(acts, p, t, u))
  {
    if t < u {
      CountedSum(e, acts, p, t, u - 1);
      PlusAgain(e, IncsBetween(acts, p, t, u - 1));
    }
  }

  lemma PlusAgain(e: nat, n: nat)
    ensures Plus(Plus(e, n), 1) == Plus(e, n + 1)
  {
    WrapsOnce(e + n, 1);
  }

  /** p is applying data on top of the snapshot, and until its counter is installed its entry is e. */
  ghost predicate Counting(n: Net, p: string, snap: StoreState, data: StoreState, e: nat)
    requires |p| >= 6
  {
    && p in n.replicas && Underway(n.replicas[p], snap, data)
    && (CounterKey(p) in n.replicas[p].applying.value.todo ==> OwnEntry(n.replicas[p].store, p) == e)
  }

  lemma CountsAdd(x: System, x': System, p: string, snap: StoreState, data: StoreState, e: nat)
    requires Invariant(x, false) && Act(x, TickAdd(p), x') && |p| >= 6 && Counting(x.net, p, snap, data, e)
    ensures Counting(x'.net, p, snap, data, e)
  {
    var st, i := x.net.replicas[p].store, x.pubs[p].counter;
    TickReady(x, p, false);
    TickAccepted(Issued(x), false, st, p, i);
    AddLeaves(st, p, i, p);
    LocalStore(x.net, p, AddOp(p, i));
  }

  lemma CountsInc(x: System, x': System, p: string, snap: StoreState, data: StoreState, e: nat)
    requires Invariant(x, false) && Act(x, TickInc(p), x') && |p| >= 6 && Counting(x.net, p, snap, data, e)
    ensures Counting(x'.net, p, snap, data, Plus(e, 1))
  {
    var st, i := x.net.replicas[p].store, x.pubs[p].counter;
    TickReady(x, p, false);
    TickAccepted(Issued(x), false, st, p, i);
    LocalStore(x.net, p, IncOp(p, i));
    assert Underway(x'.net.replicas[p], snap, data);
    if CounterKey(p) in x'.net.replicas[p].applying.value.todo {
      IncAdds(st, p, i);
    }
  }

  lemma CountsExchange(n: Net, s: Step, n': Net, p: string, snap: StoreState, data: StoreState, e: nat)
    requires Next(n, s, n') && !s.Local? && !s.Prune? && s != Finish(p) && |p| >= 6 && Counting(n, p, snap, data, e)
    ensures Counting(n', p, snap, data, e)
  {
    if s.Install? && s.p == p && s.key != CounterKey(p) {
      OtherInstallEntry(snap, data, s.key, n.replicas[p].store, n'.replicas[p].store, p);
    }
  }

  lemma CountsStep(x: System, a: Action, x': System, p: string, snap: StoreState, data: StoreState, e: nat)
    requires Invariant(x, false) && Act(x, a, x') && a != Exchange(Finish(p)) && |p| >= 6
    requires Counting(x.net, p, snap, data, e)
    ensures Counting(x'.net, p, snap, data, Counted(e, a, p))
  {
    if a == TickAdd(p) {
      CountsAdd(x, x', p, snap, data, e);
    } else if a == TickInc(p) {
      CountsInc(x, x', p, snap, data, e);
    } else if a.Exchange? {
      CountsExchange(x.net, a.s, x'.net, p, snap, data, e);
    } else {
      ElsewhereKeeps(x, a, x', p);
    }
  }

  lemma CountsNext(xs: seq<System>, acts: seq<Action>, u: nat, next: nat, p: string, snap: StoreState,
                   data: StoreState, e: nat)
    requires IsHistory(xs, acts) && u < |acts| && next == u + 1 && |p| >= 6 && acts[u] != Exchange(Finish(p))
    requires Counting(xs[u].net, p, snap, data, e)
    ensures Counting(xs[next].net, p, snap, data, Counted(e, acts[u], p))
  {
    InvariantHolds(xs, acts, u, false);
    assert ActAt(xs, acts, u);
    CountsStep(xs[u], acts[u], xs[next], p, snap, data, e);
  }

  lemma CountsFrom(xs: seq<System>, acts: seq<Action>, t: nat, next: nat, p: string, m: Packet)
    requires IsHistory(xs, acts) && t < |acts| && next == t + 1 && |p| >= 6 && acts[t] == Exchange(Begin(p, m))
    ensures p in xs[t].net.replicas && m in xs[t].net.sent
    ensures var st := xs[t].net.replicas[p].store; Counting(xs[next].net, p, Export(st), m.data, OwnEntry(st, p))
  {
    assert ActAt(xs, acts, t);
  }

  /** Until the install p's entry is the snapshot's and what p added since. */
  lemma {:induction false} GapCounts(xs: seq<System>, acts: seq<Action>, t: nat, first: nat, u: nat, p: string,
                                     m: Packet)
    requires IsHistory(xs, acts) && t < first <= u < |xs| && first == t + 1 && |p| >= 6
    requires acts[t] == Exchange(Begin(p, m)) && forall j :: t < j < u ==> acts[j] != Exchange(Finish(p))
    ensures p in xs[t].net.replicas && m in xs[t].net.sent
    ensures var st := xs[t].net.replicas[p].store;
            Counting(xs[u].net, p, Export(st), m.data, CountedTo(OwnEntry(st, p), acts, p, first, u))
  {
    CountsFrom(xs, acts, t, first, p, m);
    if first < u {
      var before, st := u - 1, xs[t].net.replicas[p].store;
      GapCounts(xs, acts, t, first, before, p, m);
      CountsNext(xs, acts, before, u, p, Export(st), m.data, CountedTo(OwnEntry(st, p), acts, p, first, before));
    }
  }

  /** What a read of p's counter at p shows. */
  ghost function CountAt(x: System, p: string): nat
    requires |p| >= 6
  {
    if p in x.net.replicas then CountShown(x.net.replicas[p].store, p) else 0
  }

  /** Throughout every history a read of p's counter, at any node, shows p's entry there. */
  lemma CountIsEntry(xs: seq<System>, acts: seq<Action>, t: nat, p: string)
    requires IsHistory(xs, acts) && t < |xs| && p in xs[t].pubs && |p| >= 6
    ensures forall q :: q in xs[t].net.replicas ==> ReadsEntry(xs[t].net.replicas[q].store, p)
    ensures forall m :: m in xs[t].net.sent ==> ReadsEntry(m.data, p)
  {
    OwnWordHolds(xs, acts, t, p);
    forall st: StoreState | AllGood(st, OwnWord(p)) ensures ReadsEntry(st, p) { ShownIsEntry(st, p); }
    forall q | q in xs[t].net.replicas ensures ReadsEntry(xs[t].net.replicas[q].store, p) {
      assert GoodReplica(xs[t].net.replicas[q], OwnWord(p));
    }
  }

  ghost predicate ReadsEntry(st: StoreState, p: string)
    requires |p| >= 6
  {
    CountShown(st, p) == OwnEntry(st, p) < U64
  }

  lemma {:induction false} PublishersStay(xs: seq<System>, acts: seq<Action>, t: nat, u: nat)
    requires IsHistory(xs, acts) && t <= u < |xs|
    ensures xs[u].pubs.Keys == xs[t].pubs.Keys
  {
    if t < u {
      var before := u - 1;
      PublishersStay(xs, acts, t, before);
      PublishersKept(xs, acts, before, u);
    }
  }

  lemma PublishersKept(xs: seq<System>, acts: seq<Action>, i: nat, next: nat)
    requires IsHistory(xs, acts) && i < |acts| && next == i + 1
    ensures xs[next].pubs.Keys == xs[i].pubs.Keys
  {
    assert ActAt(xs, acts, i);
  }

  /** Whatever happens between snapshot and install, at this node or elsewhere: until the install p's counter shows
      the snapshot's count and what p added since, wrapped; after it the larger one of the snapshot's and the
      message's. What was added in between counts for nothing. */
  lemma CountLostExactly(xs: seq<System>, acts: seq<Action>, t: nat, first: nat, v: nat, next: nat, p: string,
                         m: Packet)
    requires |p| >= 6 && InstalledAt(xs, acts, t, v, p, m, CounterKey(p)) && p in xs[t].pubs
    requires first == t + 1 && next == v + 1
    ensures CountAt(xs[v], p) == Plus(CountAt(xs[t], p), IncsBetween(acts, p, first, v))
    ensures CountAt(xs[next], p) == Larger(CountAt(xs[t], p), CountShown(m.data, p))
  {
    CountBeforeAfter(xs, acts, t, first, v, next, p, m);
    CountedSum(CountAt(xs[t], p), acts, p, first, v);
  }

  lemma CountBeforeAfter(xs: seq<System>, acts: seq<Action>, t: nat, first: nat, v: nat, next: nat, p: string,
                         m: Packet)
    requires |p| >= 6 && InstalledAt(xs, acts, t, v, p, m, CounterKey(p)) && p in xs[t].pubs
    requires first == t + 1 && next == v + 1
    ensures p in xs[t].net.replicas && CountAt(xs[t], p) < U64
    ensures CountAt(xs[v], p) == CountedTo(CountAt(xs[t], p), acts, p, first, v)
    ensures CountAt(xs[next], p) == Larger(CountAt(xs[t], p), CountShown(m.data, p))
  {
    GapCounts(xs, acts, t, first, v, p, m);
    PublishersStay(xs, acts, t, v);
    PublishersStay(xs, acts, t, next);
    var st := xs[t].net.replicas[p].store;
    CountInstalled(xs, acts, v, next, p, Export(st), m.data, CountedTo(OwnEntry(st, p), acts, p, first, v));
    ExportEntry(st, p);
    CountIsEntry(xs, acts, t, p);
    CountIsEntry(xs, acts, v, p);
    CountIsEntry(xs, acts, next, p);
  }

  lemma CountInstalled(xs: seq<System>, acts: seq<Action>, v: nat, next: nat, p: string, snap: StoreState,
                       data: StoreState, e: nat)
    requires IsHistory(xs, acts) && v < |acts| && next == v + 1 && |p| >= 6
    requires acts[v] == Exchange(Install(p, CounterKey(p))) && Counting(xs[v].net, p, snap, data, e)
    ensures p in xs[next].net.replicas && OwnEntry(xs[v].net.replicas[p].store, p) == e
    ensures OwnEntry(xs[next].net.replicas[p].store, p) == Larger(OwnEntry(snap, p), OwnEntry(data, p))
  {
    InvariantHolds(xs, acts, v, false);
    assert ActAt(xs, acts, v);
    GoodAt(xs[v], p);
    InstallEntry(Issued(xs[v]), snap, data, xs[v].net.replicas[p].store, xs[next].net.replicas[p].store, p);
  }

  // ---- Short for good ----

  /** No copy that is still of use has an entry of p above c: no store, no message, and no snapshot whose
      counter is still to be installed. */
  ghost predicate NoneAbove(n: Net, p: string, c: nat)
    requires |p| >= 6
  {
    && (forall q :: q in n.replicas ==> NotAbove(n.replicas[q], p, c))
    && forall m :: m in n.sent ==> OwnEntry(m.data, p) <= c
  }

  ghost predicate NotAbove(r: Replica, p: string, c: nat)
    requires |p| >= 6
  {
    && OwnEntry(r.store, p) <= c
    && (r.applying.Some? && CounterKey(p) in r.applying.value.todo ==> OwnEntry(r.applying.value.snap, p) <= c)
  }

  /** Every copy of p's counter is at least d short of what p has added. */
  ghost predicate Short(x: System, p: string, d: nat)
    requires |p| >= 6
  {
    exists c: nat :: NoneAbove(x.net, p, c) && c + d == TotalAdded(x.net, p)
  }

  lemma ShortFrom(x: System, p: string, c: nat, d: nat)
    requires |p| >= 6 && NoneAbove(x.net, p, c) && c + d == TotalAdded(x.net, p)
    ensures Short(x, p, d)
  {
  }

  /** An increment raises p's entry by at most one. */
  lemma ShortInc(n: Net, q: string, i: nat, p: string, c: nat) returns (c': nat)
    requires |p| >= 6 && |q| >= 6 && q in n.replicas && Refusal(n.replicas[q].store, IncOp(q, i)).None?
    requires NoneAbove(n, p, c) && (q != p ==> CounterKey(q) != CounterKey(p))
    ensures var n' := AfterLocal(n, q, IncOp(q, i));
            NoneAbove(n', p, c') && c' - c == TotalAdded(n', p) - TotalAdded(n, p)
  {
    c' := if q == p then c + 1 else c;
    var st := n.replicas[q].store;
    assert NotAbove(n.replicas[q], p, c);
    if q == p { IncAdds(st, p, i); } else { IncLeaves(st, q, i, p); }
    LocalStore(n, q, IncOp(q, i));
  }

  lemma ShortAdd(n: Net, q: string, i: nat, p: string, c: nat)
    requires |p| >= 6 && |q| >= 6 && q in n.replicas && Refusal(n.replicas[q].store, AddOp(q, i)).None?
    requires NoneAbove(n, p, c)
    ensures var n' := AfterLocal(n, q, AddOp(q, i)); NoneAbove(n', p, c) && n'.issued == n.issued
  {
    assert NotAbove(n.replicas[q], p, c);
    AddLeaves(n.replicas[q].store, q, i, p);
    LocalStore(n, q, AddOp(q, i));
  }

  lemma ShortExchange(n: Net, s: Step, n': Net, issued: Clock, p: string, c: nat)
    requires |p| >= 6 && Next(n, s, n') && !s.Local? && !s.Prune? && NoneAbove(n, p, c)
    requires Everywhere(n, TickedBy(issued, false)) && AllApplyingOk(n)
    ensures NoneAbove(n', p, c) && TotalAdded(n', p) == TotalAdded(n, p)
  {
    var r := n.replicas[s.p];
    assert NotAbove(r, p, c) && GoodReplica(r, TickedBy(issued, false)) && ApplyingOk(n, s.p);
    ExportEntry(r.store, p);
    if s.Apply? {
      ApplyEntry(issued, s.m.data, r.store, n'.replicas[s.p].store, p);
    } else if s.Install? && s.key == CounterKey(p) {
      var a := r.applying.value;
      InstallEntry(issued, a.snap, a.msg, r.store, n'.replicas[s.p].store, p);
    } else if s.Install? {
      var a := r.applying.value;
      OtherInstallEntry(a.snap, a.msg, s.key, r.store, n'.replicas[s.p].store, p);
    }
  }

  lemma ShortStep(x: System, a: Action, x': System, p: string, d: nat)
    requires Invariant(x, false) && AllApplyingOk(x.net) && Act(x, a, x') && p in x.pubs && |p| >= 6 && Short(x, p, d)
    ensures Short(x', p, d)
  {
    var c: nat :| NoneAbove(x.net, p, c) && c + d == TotalAdded(x.net, p);
    var c' := BoundAfter(x, a, x', p, c);
    ShortFrom(x', p, c', d);
  }

  lemma BoundAfter(x: System, a: Action, x': System, p: string, c: nat) returns (c': nat)
    requires Invariant(x, false) && AllApplyingOk(x.net) && Act(x, a, x') && p in x.pubs && |p| >= 6
    requires NoneAbove(x.net, p, c)
    ensures NoneAbove(x'.net, p, c') && c' - c == TotalAdded(x'.net, p) - TotalAdded(x.net, p)
  {
    c' := c;
    match a
    case TickAdd(q) => ShortTickAdd(x, q, x', p, c);
    case TickInc(q) => c' := ShortTickInc(x, q, x', p, c);
    case Publish(q, out, _) => if out { ShortExchange(x.net, Snapshot(q), x'.net, Issued(x), p, c); }
    case Exchange(s) => ShortExchange(x.net, s, x'.net, Issued(x), p, c);
  }

  /** A tick's two halves are accepted operations of the node. */
  lemma TickedNet(x: System, a: Action, x': System)
    requires Invariant(x, false) && Act(x, a, x') && (a.TickAdd? || a.TickInc?)
    ensures a.p in x.pubs && |a.p| >= 6 && a.p in x.net.replicas
    ensures var st, i := x.net.replicas[a.p].store, x.pubs[a.p].counter;
            && (a.TickAdd? ==> Refusal(st, AddOp(a.p, i)).None? && x'.net == AfterLocal(x.net, a.p, AddOp(a.p, i)))
            && (a.TickInc? ==> Refusal(st, IncOp(a.p, i)).None? && x'.net == AfterLocal(x.net, a.p, IncOp(a.p, i)))
  {
    TickReady(x, a.p, false);
    TickAccepted(Issued(x), false, x.net.replicas[a.p].store, a.p, x.pubs[a.p].counter);
  }

  lemma ShortTickAdd(x: System, q: string, x': System, p: string, c: nat)
    requires Invariant(x, false) && Act(x, TickAdd(q), x') && |p| >= 6 && NoneAbove(x.net, p, c)
    ensures NoneAbove(x'.net, p, c) && TotalAdded(x'.net, p) == TotalAdded(x.net, p)
  {
    TickedNet(x, TickAdd(q), x');
    ShortAdd(x.net, q, x.pubs[q].counter, p, c);
  }

  lemma ShortTickInc(x: System, q: string, x': System, p: string, c: nat) returns (c': nat)
    requires Invariant(x, false) && Act(x, TickInc(q), x') && p in x.pubs && |p| >= 6 && NoneAbove(x.net, p, c)
    ensures NoneAbove(x'.net, p, c') && c' - c == TotalAdded(x'.net, p) - TotalAdded(x.net, p)
  {
    TickedNet(x, TickInc(q), x');
    if q != p { OtherKey(x.pubs, p, q); }
    c' := ShortInc(x.net, q, x.pubs[q].counter, p, c);
  }

  /** Wherever p's counter is read, it is at least d short of what p has added. */
  ghost predicate ReadersShort(x: System, p: string, d: nat)
    requires |p| >= 6
  {
    forall q :: q in x.net.replicas ==> OwnEntry(x.net.replicas[q].store, p) + d <= TotalAdded(x.net, p)
  }

  /** ... and stays so, whatever happens. */
  ghost predicate StaysShort(x: System, p: string, d: nat)
    requires |p| >= 6
  {
    forall acts, x' :: Reaches(x, acts, x') ==> ReadersShort(x', p, d)
  }

  lemma {:induction false} ShortForGood(x: System, acts: seq<Action>, x': System, p: string, d: nat)
    requires Invariant(x, false) && AllApplyingOk(x.net) && Reaches(x, acts, x') && p in x.pubs && |p| >= 6
    requires Short(x, p, d)
    ensures ReadersShort(x', p, d)
    decreases |acts|
  {
    if acts == [] {
      var c: nat :| NoneAbove(x.net, p, c) && c + d == TotalAdded(x.net, p);
      forall q | q in x.net.replicas ensures OwnEntry(x.net.replicas[q].store, p) + d <= TotalAdded(x.net, p) {
        assert NotAbove(x.net.replicas[q], p, c);
      }
    } else {
      var mid :| Act(x, acts[0], mid) && Reaches(mid, acts[1..], x');
      ShortStep(x, acts[0], mid, p, d);
      ActKeeps(x, acts[0], mid, false);
      AllActOk(x, acts[0], mid);
      StillPublishes(x, acts[0], mid, p);
      ShortForGood(mid, acts[1..], x', p, d);
    }
  }

  // ---- When it is not ----

  /** Some continuation lets a reader see more than c, while p adds nothing more. */
  ghost predicate CanExceed(x: System, p: string, c: nat)
    requires |p| >= 6
  {
    exists acts, x' :: Reaches(x, acts, x') && Exceeds(x', p, c) && TotalAdded(x'.net, p) == TotalAdded(x.net, p)
  }

  ghost predicate Exceeds(x: System, p: string, c: nat)
    requires |p| >= 6
  {
    exists q :: q in x.net.replicas && OwnEntry(x.net.replicas[q].store, p) > c
  }

  lemma ExceedsNow(x: System, p: string, c: nat)
    requires |p| >= 6 && Exceeds(x, p, c)
    ensures CanExceed(x, p, c)
  {
    assert Reaches(x, [], x);
  }

  lemma ExceedsLater(x: System, s: Step, x1: System, p: string, c: nat)
    requires |p| >= 6 && Act(x, Exchange(s), x1) && CanExceed(x1, p, c)
    ensures CanExceed(x, p, c)
  {
    var a := Exchange(s);
    var acts, x' :| Reaches(x1, acts, x') && Exceeds(x', p, c) && TotalAdded(x'.net, p) == TotalAdded(x1.net, p);
    assert ([a] + acts)[1..] == acts;
    assert Reaches(x, [a] + acts, x');
    assert TotalAdded(x1.net, p) == TotalAdded(x.net, p);
  }

  lemma {:induction false} DeliveryCounts(x: System, q: string, m: Packet, p: string, c: nat)
    requires Invariant(x, false) && q in x.net.replicas && m in x.net.sent && m.from != q
    requires |p| >= 6 && OwnEntry(m.data, p) > c
    ensures CanExceed(x, p, c)
    decreases if x.net.replicas[q].applying.Some? then 1 + |x.net.replicas[q].applying.value.todo| else 0
  {
    var r := x.net.replicas[q];
    if r.applying.None? {
      var x' := CanApply(x, q, m);
      GoodAt(x, q);
      ApplyEntry(Issued(x), m.data, r.store, x'.net.replicas[q].store, p);
      ExceedsNow(x', p, c);
      ExceedsLater(x, Apply(q, m), x', p, c);
    } else if r.applying.value.todo == {} {
      var x' := CanFinish(x, q);
      ActKeeps(x, Exchange(Finish(q)), x', false);
      DeliveryCounts(x', q, m, p, c);
      ExceedsLater(x, Finish(q), x', p, c);
    } else {
      var key :| key in r.applying.value.todo;
      var x' := CanInstall(x, q, key);
      ActKeeps(x, Exchange(Install(q, key)), x', false);
      DeliveryCounts(x', q, m, p, c);
      ExceedsLater(x, Install(q, key), x', p, c);
    }
  }

  lemma InstallCounts(x: System, q: string, p: string, c: nat)
    requires Invariant(x, false) && AllApplyingOk(x.net) && q in x.net.replicas && |p| >= 6
    requires !NotAbove(x.net.replicas[q], p, c)
    ensures CanExceed(x, p, c)
  {
    var r := x.net.replicas[q];
    if OwnEntry(r.store, p) > c {
      ExceedsNow(x, p, c);
    } else {
      assert ApplyingOk(x.net, q);
      GoodAt(x, q);
      var x' := CanInstall(x, q, CounterKey(p));
      InstallEntry(Issued(x), r.applying.value.snap, r.applying.value.msg, r.store, x'.net.replicas[q].store, p);
      ExceedsNow(x', p, c);
      ExceedsLater(x, Install(q, CounterKey(p)), x', p, c);
    }
  }

  /** In every state of every history of at least two nodes: every read of p's counter stays at least d short of
      what p added, whatever happens, if and only if every copy that is still of use is. */
  lemma StaysShortIff(xs: seq<System>, acts: seq<Action>, t: nat, p: string, q: string, d: nat)
    requires IsHistory(xs, acts) && t < |xs| && p in xs[t].pubs && |p| >= 6
    requires p in xs[t].net.replicas && q in xs[t].net.replicas && p != q
    ensures StaysShort(xs[t], p, d) <==> Short(xs[t], p, d)
  {
    InvariantHolds(xs, acts, t, false);
    ApplyingStaysOk(xs, acts, t);
    if Short(xs[t], p, d) {
      forall acts, x' | Reaches(xs[t], acts, x') ensures ReadersShort(x', p, d) {
        ShortForGood(xs[t], acts, x', p, d);
      }
    }
    if StaysShort(xs[t], p, d) { StaysMeansShort(xs[t], p, q, d); }
  }

  lemma StaysMeansShort(x: System, p: string, q: string, d: nat)
    requires Invariant(x, false) && AllApplyingOk(x.net) && |p| >= 6
    requires p in x.net.replicas && q in x.net.replicas && p != q && StaysShort(x, p, d)
    ensures Short(x, p, d)
  {
    assert Reaches(x, [], x) && ReadersShort(x, p, d);
    assert OwnEntry(x.net.replicas[p].store, p) + d <= TotalAdded(x.net, p);
    var c := TotalAdded(x.net, p) - d;
    if !NoneAbove(x.net, p, c) {
      if r :| r in x.net.replicas && !NotAbove(x.net.replicas[r], p, c) {
        InstallCounts(x, r, p, c);
      } else {
        var m :| m in x.net.sent && OwnEntry(m.data, p) > c;
        DeliveryCounts(x, if m.from == p then q else p, m, p, c);
      }
    }
  }

  // ---- Every counter can fall short for good ----

  /** Message m, which has a copy of p's counter, can be applied at p, which is between two ticks. */
  ghost predicate CanRaceCount(x: System, p: string, m: Packet)
    requires |p| >= 6
  {
    && p in x.pubs && x.pubs[p].phase.Idle? && p in x.net.replicas && x.net.replicas[p].applying.None?
    && m in x.net.sent && m.from != p && CounterKey(p) in m.data
  }

  /** No copy shows more than was added. */
  lemma NeverAbove(xs: seq<System>, acts: seq<Action>, t: nat, p: string)
    requires IsHistory(xs, acts) && t < |xs| && |p| >= 6
    ensures Short(xs[t], p, 0)
  {
    var ns, steps := HistoryIsRun(xs, acts, t);
    RunsAreBounded(ns, steps, |steps|);
    var n := xs[t].net;
    var good := CoveredBy(n.issued);
    forall st: StoreState | AllGood(st, good) ensures OwnEntry(st, p) <= TotalAdded(n, p) {
      if CounterKey(p) in st { assert good(CounterKey(p), st[CounterKey(p)]); }
    }
    forall q | q in n.replicas ensures NotAbove(n.replicas[q], p, TotalAdded(n, p)) {
      assert GoodReplica(n.replicas[q], good);
    }
    ShortFrom(xs[t], p, TotalAdded(n, p), 0);
  }

  lemma IncrementKeepsApplying(x: System, p: string)
    requires Invariant(x, false) && p in x.pubs && |p| >= 6 && p in x.net.replicas
    ensures StoreChanged(x.net, AfterIncrement(x, p).net, p)
    ensures TotalAdded(AfterIncrement(x, p).net, p) == TotalAdded(x.net, p) + 1
  {
    TickReady(x, p, false);
    TickAccepted(Issued(x), false, x.net.replicas[p].store, p, x.pubs[p].counter);
    IncrementsNet(x.net, p, x.pubs[p].counter);
  }

  lemma IncrementsNet(n: Net, p: string, i: nat)
    requires p in n.replicas && |p| >= 6 && Refusal(n.replicas[p].store, IncOp(p, i)).None?
    ensures StoreChanged(n, AfterLocal(n, p, IncOp(p, i)), p)
    ensures TotalAdded(AfterLocal(n, p, IncOp(p, i)), p) == TotalAdded(n, p) + 1
  {
  }

  lemma AddAddsNothing(x: System, p: string)
    requires p in x.pubs && |p| >= 6 && p in x.net.replicas
    ensures TotalAdded(AfterAdd(x, p).net, p) == TotalAdded(x.net, p)
  {
  }

  /** Installing drops what the store alone had. */
  lemma NoneAboveAgain(n1: Net, n2: Net, n3: Net, p: string, c: nat, issued: Clock)
    requires |p| >= 6 && StoreChanged(n1, n2, p) && NoneAbove(n1, p, c)
    requires GoodReplica(n2.replicas[p], TickedBy(issued, false)) && Next(n2, Install(p, CounterKey(p)), n3)
    requires n1.replicas[p].applying.Some? && CounterKey(p) in n1.replicas[p].applying.value.msg
    requires ApplyingOk(n1, p)
    ensures NoneAbove(n3, p, c) && TotalAdded(n3, p) == TotalAdded(n2, p)
  {
    var a := n1.replicas[p].applying.value;
    InstallEntry(issued, a.snap, a.msg, n2.replicas[p].store, n3.replicas[p].store, p);
    assert NotAbove(n1.replicas[p], p, c);
    forall q | q in n3.replicas ensures NotAbove(n3.replicas[q], p, c) {
      if q != p { assert n3.replicas[q] == n1.replicas[q] && NotAbove(n1.replicas[q], p, c); }
    }
  }

  /** Whenever a message with p's counter is on its way to p while it is between two ticks, p can go on such that
      it increments its counter, drops that while applying the message, and every reader anywhere is one
      more short than before, for good. */
  lemma CountLossIsPossible(xs: seq<System>, acts: seq<Action>, t: nat, p: string, m: Packet, d: nat)
    returns (x1: System, x2: System, x3: System, x4: System)
    requires IsHistory(xs, acts) && t < |xs| && |p| >= 6 && CanRaceCount(xs[t], p, m) && Short(xs[t], p, d)
    ensures Act(xs[t], Exchange(Begin(p, m)), x1) && Act(x1, TickAdd(p), x2) && Act(x2, TickInc(p), x3)
    ensures Act(x3, Exchange(Install(p, CounterKey(p))), x4)
    ensures TotalAdded(x4.net, p) == TotalAdded(xs[t].net, p) + 1 && StaysShort(x4, p, d + 1)
  {
    x1 := CountRaceBegins(xs, acts, t, p, m, d);
    x2 := AfterAdd(x1, p);
    x3 := AfterIncrement(x2, p);
    TickInGap(x1, p);
    var c: nat :| NoneAbove(x1.net, p, c) && c + d == TotalAdded(x1.net, p);
    x4 := DropCount(x1, x3, p, c, d + 1);
    forall acts, x' | Reaches(x4, acts, x') ensures ReadersShort(x', p, d + 1) {
      ShortForGood(x4, acts, x', p, d + 1);
    }
  }

  /** p ticks while it applies a message. */
  lemma TickInGap(x1: System, p: string)
    requires Invariant(x1, false) && AllApplyingOk(x1.net) && p in x1.pubs && |p| >= 6 && x1.pubs[p].phase.Idle?
    requires p in x1.net.replicas
    ensures var x2, x3 := AfterAdd(x1, p), AfterIncrement(AfterAdd(x1, p), p);
            && Act(x1, TickAdd(p), x2) && Act(x2, TickInc(p), x3) && Invariant(x3, false) && AllApplyingOk(x3.net)
            && StoreChanged(x1.net, x3.net, p) && p in x3.pubs && TotalAdded(x3.net, p) == TotalAdded(x1.net, p) + 1
  {
    var x2 := AfterAdd(x1, p);
    CanAdd(x1, p);
    CanIncrement(x2, p);
    AddKeepsApplying(x1, p);
    AddAddsNothing(x1, p);
    IncrementKeepsApplying(x2, p);
    ActKeeps(x2, TickInc(p), AfterIncrement(x2, p), false);
    AllActOk(x1, TickAdd(p), x2);
    AllActOk(x2, TickInc(p), AfterIncrement(x2, p));
  }

  lemma DropCount(x1: System, x3: System, p: string, c: nat, d: nat) returns (x4: System)
    requires AllApplyingOk(x1.net) && Invariant(x3, false) && AllApplyingOk(x3.net) && p in x3.pubs && |p| >= 6
    requires StoreChanged(x1.net, x3.net, p) && NoneAbove(x1.net, p, c) && c + d == TotalAdded(x3.net, p)
    requires x1.net.replicas[p].applying.Some? && CounterKey(p) in x1.net.replicas[p].applying.value.todo
    requires CounterKey(p) in x1.net.replicas[p].applying.value.msg
    ensures Act(x3, Exchange(Install(p, CounterKey(p))), x4) && Invariant(x4, false) && AllApplyingOk(x4.net)
    ensures p in x4.pubs && Short(x4, p, d) && TotalAdded(x4.net, p) == TotalAdded(x3.net, p)
  {
    x4 := InstallCount(x3, p);
    GoodAt(x3, p);
    NoneAboveAgain(x1.net, x3.net, x4.net, p, c, Issued(x3));
    ShortFrom(x4, p, c, d);
  }

  lemma InstallCount(x: System, p: string) returns (x': System)
    requires Invariant(x, false) && AllApplyingOk(x.net) && p in x.pubs && |p| >= 6 && p in x.net.replicas
    requires x.net.replicas[p].applying.Some? && CounterKey(p) in x.net.replicas[p].applying.value.todo
    ensures Act(x, Exchange(Install(p, CounterKey(p))), x') && Next(x.net, Install(p, CounterKey(p)), x'.net)
    ensures Invariant(x', false) && AllApplyingOk(x'.net) && p in x'.pubs
  {
    x' := CanInstall(x, p, CounterKey(p));
    ActKeeps(x, Exchange(Install(p, CounterKey(p))), x', false);
    AllActOk(x, Exchange(Install(p, CounterKey(p))), x');
  }

  lemma CountRaceBegins(xs: seq<System>, acts: seq<Action>, t: nat, p: string, m: Packet, d: nat) returns (x1: System)
    requires IsHistory(xs, acts) && t < |xs| && |p| >= 6 && CanRaceCount(xs[t], p, m) && Short(xs[t], p, d)
    ensures Act(xs[t], Exchange(Begin(p, m)), x1) && Invariant(x1, false) && AllApplyingOk(x1.net)
    ensures p in x1.pubs && x1.pubs[p].phase.Idle? && p in x1.net.replicas && Short(x1, p, d)
    ensures TotalAdded(x1.net, p) == TotalAdded(xs[t].net, p)
    ensures x1.net.replicas[p].applying.Some? && CounterKey(p) in x1.net.replicas[p].applying.value.todo
    ensures CounterKey(p) in x1.net.replicas[p].applying.value.msg
  {
    var x := xs[t];
    InvariantHolds(xs, acts, t, false);
    ApplyingStaysOk(xs, acts, t);
    x1 := CanBegin(x, p, m);
    ActKeeps(x, Exchange(Begin(p, m)), x1, false);
    AllActOk(x, Exchange(Begin(p, m)), x1);
    ShortBegin(x, p, m, x1, d);
  }

  lemma ShortBegin(x: System, p: string, m: Packet, x1: System, d: nat)
    requires Invariant(x, false) && AllApplyingOk(x.net) && Act(x, Exchange(Begin(p, m)), x1) && |p| >= 6
    requires Short(x, p, d)
    ensures Short(x1, p, d) && TotalAdded(x1.net, p) == TotalAdded(x.net, p)
  {
    var c: nat :| NoneAbove(x.net, p, c) && c + d == TotalAdded(x.net, p);
    ShortExchange(x.net, Begin(p, m), x1.net, Issued(x), p, c);
  }

  /** p has published a copy of its counter, ... */
  lemma CanSendCount(x: System, p: string) returns (m: Packet, x': System)
    requires p in x.pubs && |p| >= 6 && x.pubs[p].phase.Ready? && x.pubs[p].counter + 1 < U64
    requires p in x.net.replicas && CounterKey(p) in x.net.replicas[p].store
    ensures Act(x, Publish(p, true, true), x') && x'.net.replicas == x.net.replicas
    ensures p in x'.pubs && x'.pubs[p].phase.Idle?
    ensures m in x'.net.sent && m.from == p && CounterKey(p) in m.data
  {
    var r, pub := x.net.replicas[p], x.pubs[p];
    m := Packet(p, Export(r.store), r.known);
    x' := SetPublisher(x, x.net.(sent := x.net.sent + {m}), p, Publisher(pub.counter + 1, Idle, pub.issued));
  }

  /** ... and another node passes it on. */
  lemma CanPassOn(x: System, p: string, q: string, m: Packet) returns (x1: System, x2: System, m': Packet)
    requires |p| >= 6 && p in x.pubs && x.pubs[p].phase.Idle? && p in x.net.replicas && q in x.net.replicas && p != q
    requires x.net.replicas[p].applying.None? && x.net.replicas[q].applying.None? && x.net.replicas[q].store == map[]
    requires m in x.net.sent && m.from == p && CounterKey(p) in m.data
    ensures Act(x, Exchange(Apply(q, m)), x1) && Act(x1, Exchange(Snapshot(q)), x2) && CanRaceCount(x2, p, m')
  {
    x1 := CanApply(x, q, m);
    var r := x1.net.replicas[q];
    assert Synced(Export(map[]), m.data, map[], r.store, CounterKey(p));
    m' := Packet(q, Export(r.store), r.known);
    x2 := x1.(net := x1.net.(sent := x1.net.sent + {m'}));
  }

  /** Such a message is on its way as soon as another node has applied p's first one and published. */
  lemma FirstCopy(x: System, p: string, q: string)
    returns (x1: System, x2: System, x3: System, x4: System, x5: System, m: Packet, m': Packet)
    requires Start(x) && p in x.pubs && |p| >= 6 && q in x.net.replicas && p != q
    ensures Act(x, TickAdd(p), x1) && Act(x1, TickInc(p), x2) && Act(x2, Publish(p, true, true), x3)
    ensures Act(x3, Exchange(Apply(q, m)), x4) && Act(x4, Exchange(Snapshot(q)), x5) && CanRaceCount(x5, p, m')
  {
    StartInvariant(x, false);
    CanAdd(x, p);
    x1, x2 := AfterAdd(x, p), AfterIncrement(AfterAdd(x, p), p);
    CanIncrement(x1, p);
    AddKeepsApplying(x, p);
    IncrementKeepsApplying(x1, p);
    TickReady(x1, p, false);
    TickAccepted(Issued(x1), false, x1.net.replicas[p].store, p, 0);
    IncAdds(x1.net.replicas[p].store, p, 0);
    LocalStore(x1.net, p, IncOp(p, 0));
    m, x3 := CanSendCount(x2, p);
    x4, x5, m' := CanPassOn(x3, p, q, m);
  }
}
