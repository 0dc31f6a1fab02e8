/** The running protocol: nodes that tick, publish their state and apply what they receive. */
module Protocol {
  import opened Clocks
  import opened Crdts
  import opened Engines
  import opened LocalData
  import opened Network

  /** Where a publisher is within a tick. */
  datatype Phase = Idle | Added | Ready

  /** The tick counter; issued is history: how many different elements the node has added. */
  datatype Publisher = Publisher(counter: nat, phase: Phase, issued: nat)

  /** Nodes without a publisher only apply messages and answer requests. */
  datatype System = System(net: Net, pubs: map<string, Publisher>)

  datatype Action =
    | TickAdd(p: string)
    | TickInc(p: string)
    /** The message may get out or not, and publishing may or may not be reported as failed. */
    | Publish(p: string, out: bool, ok: bool)
    | Exchange(s: Step)

  ghost predicate ValidNodes(pubs: map<string, Publisher>) {
    && (forall p :: p in pubs ==> 6 <= |p| <= 256 && !Blank(p))
    && (forall p, q :: p in pubs && q in pubs && Suffix(p) == Suffix(q) ==> p == q)
  }

  ghost predicate Start(x: System) {
    && Init(x.net) && ValidNodes(x.pubs) && x.pubs.Keys <= x.net.replicas.Keys
    && forall p :: p in x.pubs ==> x.pubs[p] == Publisher(0, Idle, 0)
  }

  function SetPublisher(x: System, net: Net, p: string, pub: Publisher): System {
    System(net, x.pubs[p := pub])
  }

  /** One step of the publisher loop, or of the network. The counter is a uint64 that does not overflow. */
  ghost predicate Act(x: System, a: Action, x': System) {
    match a
    case TickAdd(p) =>
      && p in x.pubs && |p| >= 6 && x.pubs[p].phase.Idle?
      && var pub := x.pubs[p];
         var ok := p in x.net.replicas && Refusal(x.net.replicas[p].store, AddOp(p, pub.counter)).None?;
         Next(x.net, Local(p, AddOp(p, pub.counter)), x'.net)
         && x' == SetPublisher(x, x'.net, p,
                               if ok then Publisher(pub.counter, Added, pub.counter + 1) else pub.(phase := Ready))
    case TickInc(p) =>
      && p in x.pubs && |p| >= 6 && x.pubs[p].phase.Added?
      && Next(x.net, Local(p, IncOp(p, x.pubs[p].counter)), x'.net)
      && x' == SetPublisher(x, x'.net, p, x.pubs[p].(phase := Ready))
    case Publish(p, out, ok) =>
      && p in x.pubs && x.pubs[p].phase.Ready?
      && (if out then Next(x.net, Snapshot(p), x'.net) else x'.net == x.net)
      && (ok ==> x.pubs[p].counter + 1 < U64)
      && x' == SetPublisher(x, x'.net, p, Publisher(x.pubs[p].counter + if ok then 1 else 0, Idle, x.pubs[p].issued))
    case Exchange(s) =>
      !s.Local? && !s.Prune? && Next(x.net, s, x'.net) && x' == x.(net := x'.net)
  }

  ghost predicate IsHistory(xs: seq<System>, acts: seq<Action>) {
    |xs| == |acts| + 1 && Start(xs[0]) && forall i: nat :: i < |acts| ==> ActAt(xs, acts, i)
  }

  ghost predicate ActAt(xs: seq<System>, acts: seq<Action>, i: nat)
    requires i < |acts| < |xs|
  {
    Act(xs[i], acts[i], xs[i + 1])
  }

  /** No message is applied piecemeal. */
  ghost predicate Atomic(acts: seq<Action>) {
    forall i :: 0 <= i < |acts| && acts[i].Exchange? ==> acts[i].s.Snapshot? || acts[i].s.Apply?
  }

  /** How many elements each publisher has added. */
  function Issued(x: System): Clock {
    map p | p in x.pubs :: x.pubs[p].issued
  }

  // ---- What is recorded ----

  /** c is the clock with which p added its i-th element e, i below the given bounds. */
  ghost predicate Wrote(bounds: Clock, p: string, i: nat, e: string, c: Clock) {
    p in bounds && |p| >= 6 && i < bounds[p] && e == ElementName(p, i) && c == TickClock(p, i)
  }

  ghost predicate Written(bounds: Clock, e: string, c: Clock) {
    exists p, i :: Wrote(bounds, p, i, e, c)
  }

  /** Every element was added by its writer, with the clock its writer gave it, and none was removed. */
  ghost predicate Genuine(bounds: Clock, s: SetState) {
    s.removes == map[] && forall e :: e in s.adds ==> Written(bounds, e, s.adds[e])
  }

  /** Every element within the bounds is there. */
  ghost predicate Complete(bounds: Clock, s: SetState) {
    forall p, i: nat :: p in bounds && |p| >= 6 && i < bounds[p] ==> ElementName(p, i) in s.adds
  }

  /** The set holds exactly the elements its timestamp announces. */
  ghost predicate Summarised(issued: Clock, s: SetState) {
    Leq(s.timestamp, issued) && Genuine(s.timestamp, s) && Complete(s.timestamp, s)
  }

  ghost predicate Ticked(issued: Clock, exact: bool, k: string, o: ObjectState) {
    && o.Key() == k
    && if k == SAMPLE_SET then o.ASet? && Genuine(issued, o.s) && (exact ==> Summarised(issued, o.s))
       else o.ACounter? && exists p :: p in issued && |p| >= 6 && k == CounterKey(p)
  }

  ghost function TickedBy(issued: Clock, exact: bool): Good {
    (k, o) => Ticked(issued, exact, k, o)
  }

  lemma GenuineGrows(a: Clock, b: Clock, s: SetState)
    requires Genuine(a, s) && Leq(a, b)
    ensures Genuine(b, s)
  {
    forall e | e in s.adds ensures Written(b, e, s.adds[e]) {
      var p, i :| Wrote(a, p, i, e, s.adds[e]);
      assert Wrote(b, p, i, e, s.adds[e]);
    }
  }

  lemma TickedGrows(a: Clock, b: Clock, exact: bool, k: string, o: ObjectState)
    requires Ticked(a, exact, k, o) && Leq(a, b)
    ensures Ticked(b, exact, k, o)
  {
    if o.ASet? {
      GenuineGrows(a, b, o.s);
    }
  }

  lemma GenuineMerge(bounds: Clock, a: SetState, b: SetState, r: SetState)
    requires Genuine(bounds, a) && Genuine(bounds, b) && MergeOf(ASet(a), ASet(b), ASet(r))
    ensures Genuine(bounds, r)
  {
  }

  lemma SummarisedMerge(issued: Clock, a: SetState, b: SetState, r: SetState)
    requires Summarised(issued, a) && Summarised(issued, b) && MergeOf(ASet(a), ASet(b), ASet(r))
    ensures Summarised(issued, r)
  {
    LubIsLeast(a.timestamp, b.timestamp, issued);
    GenuineGrows(a.timestamp, r.timestamp, a);
    GenuineGrows(b.timestamp, r.timestamp, b);
    GenuineMerge(r.timestamp, a, b, r);
    forall p, i: nat | p in r.timestamp && |p| >= 6 && i < r.timestamp[p] ensures ElementName(p, i) in r.adds {
      assert ElementName(p, i) in a.adds || ElementName(p, i) in b.adds;
    }
  }

  lemma TickedClosed(issued: Clock, exact: bool)
    ensures Closed(TickedBy(issued, exact))
  {
    forall k, a, b, r | Ticked(issued, exact, k, a) && Ticked(issued, exact, k, b) && MergeOf(a, b, r)
      ensures Ticked(issued, exact, k, r)
    {
      if k == SAMPLE_SET {
        GenuineMerge(issued, a.s, b.s, r.s);
        if exact { SummarisedMerge(issued, a.s, b.s, r.s); }
      }
    }
    forall k, o | Ticked(issued, exact, k, o) ensures Ticked(issued, exact, k, WithKey(o, k)) {
      assert WithKey(o, k) == o;
    }
  }

  // ---- The invariant ----

  /** The timestamp of a store's sample set. */
  function SampleTimestamp(st: StoreState): Clock {
    if SAMPLE_SET in st && st[SAMPLE_SET].ASet? then st[SAMPLE_SET].s.timestamp else map[]
  }

  ghost predicate PublisherOk(pub: Publisher, st: StoreState, p: string, exact: bool) {
    && (exact ==> Entry(SampleTimestamp(st), p) == pub.issued)
    && pub.counter < U64 && pub.counter <= pub.issued <= pub.counter + 1
    && (!pub.phase.Idle? ==> pub.issued == pub.counter + 1)
  }

  ghost predicate Invariant(x: System, exact: bool) {
    PublishersOk(x, exact) && Everywhere(x.net, TickedBy(Issued(x), exact))
  }

  ghost predicate PublishersOk(x: System, exact: bool) {
    && ValidNodes(x.pubs) && x.pubs.Keys <= x.net.replicas.Keys
    && forall p :: p in x.pubs ==> PublisherOk(x.pubs[p], x.net.replicas[p].store, p, exact)
  }

  /** A tick is never refused. */
  lemma TickAccepted(issued: Clock, exact: bool, st: StoreState, p: string, i: nat)
    requires AllGood(st, TickedBy(issued, exact)) && 6 <= |p| <= 256 && !Blank(p) && i < U64
    ensures Refusal(st, AddOp(p, i)).None? && Refusal(st, IncOp(p, i)).None?
  {
    TickValidates(p, i);
    if SAMPLE_SET in st { assert Ticked(issued, exact, SAMPLE_SET, st[SAMPLE_SET]); }
    if CounterKey(p) in st { assert Ticked(issued, exact, CounterKey(p), st[CounterKey(p)]); }
  }

  lemma AddedSet(issued: Clock, issued': Clock, exact: bool, s: SetState, p: string, i: nat)
    requires |p| >= 6 && Genuine(issued, s) && (exact ==> Summarised(issued, s) && Entry(s.timestamp, p) >= i)
    requires Leq(issued, issued') && p in issued' && issued'[p] == i + 1
    ensures var s' := SetAfter(s, AddOp(p, i)); Genuine(issued', s') && (exact ==> Summarised(issued', s'))
  {
    var s', e := SetAfter(s, AddOp(p, i)), ElementName(p, i);
    AddedGenuine(issued, issued', s, p, i);
    if exact {
      LubIsLeast(s.timestamp, TickClock(p, i), issued');
      LubIsLeast(s.timestamp, TickClock(p, i), s'.timestamp);
      assert p in TickClock(p, i);
      AddedGenuine(s.timestamp, s'.timestamp, s, p, i);
      forall q, j: nat | q in s'.timestamp && |q| >= 6 && j < s'.timestamp[q] ensures ElementName(q, j) in s'.adds {
        if !(q == p && j == i) { assert q in s.timestamp && j < s.timestamp[q]; }
      }
    }
  }

  lemma AddedGenuine(a: Clock, b: Clock, s: SetState, p: string, i: nat)
    requires |p| >= 6 && Genuine(a, s) && Leq(a, b) && p in b && i < b[p]
    ensures Genuine(b, SetAfter(s, AddOp(p, i)))
  {
    GenuineGrows(a, b, s);
    assert Wrote(b, p, i, ElementName(p, i), TickClock(p, i));
    assert p in TickClock(p, i);
    assert SetAfter(s, AddOp(p, i)).adds == s.adds[ElementName(p, i) := TickClock(p, i)];
  }

  lemma AddedGood(issued: Clock, issued': Clock, exact: bool, st: StoreState, p: string, i: nat)
    requires AllGood(st, TickedBy(issued, exact)) && 6 <= |p| <= 256 && !Blank(p) && i < U64
    requires exact ==> Entry(SampleTimestamp(st), p) >= i
    requires Leq(issued, issued') && p in issued' && issued'[p] == i + 1
    ensures Refusal(st, AddOp(p, i)).None?
    ensures AllGood(Submit(st, AddOp(p, i)), TickedBy(issued', exact))
    ensures var was := Entry(SampleTimestamp(st), p);
            Entry(SampleTimestamp(Submit(st, AddOp(p, i))), p) == if was > i + 1 then was else i + 1
  {
    TickAccepted(issued, exact, st, p, i);
    var s := if SAMPLE_SET in st then st[SAMPLE_SET].s else NewSet(SAMPLE_SET);
    assert SAMPLE_SET in st ==> Ticked(issued, exact, SAMPLE_SET, st[SAMPLE_SET]);
    assert p in TickClock(p, i);
    AddedSet(issued, issued', exact, s, p, i);
    var st' := Submit(st, AddOp(p, i));
    assert st' == st[SAMPLE_SET := ASet(SetAfter(s, AddOp(p, i)))];
    forall k | k in st' ensures Ticked(issued', exact, k, st'[k]) {
      if k != SAMPLE_SET {
        assert Ticked(issued, exact, k, st[k]);
        TickedGrows(issued, issued', exact, k, st[k]);
      }
    }
  }

  lemma IncrementedGood(issued: Clock, exact: bool, st: StoreState, p: string, i: nat)
    requires AllGood(st, TickedBy(issued, exact)) && 6 <= |p| <= 256 && !Blank(p) && i < U64 && p in issued
    ensures Refusal(st, IncOp(p, i)).None?
    ensures AllGood(Submit(st, IncOp(p, i)), TickedBy(issued, exact))
    ensures SampleTimestamp(Submit(st, IncOp(p, i))) == SampleTimestamp(st)
  {
    TickAccepted(issued, exact, st, p, i);
    var k := CounterKey(p);
    assert k in st ==> Ticked(issued, exact, k, st[k]);
    IncrementedStore(st, p, i);
    var st' := Submit(st, IncOp(p, i));
    forall j | j in st' ensures Ticked(issued, exact, j, st'[j]) {
      if j != k { assert Ticked(issued, exact, j, st[j]); }
    }
  }

  /** An accepted increment touches the node's counter only. */
  lemma IncrementedStore(st: StoreState, p: string, i: nat)
    requires |p| >= 6 && Refusal(st, IncOp(p, i)).None?
    ensures var st', k := Submit(st, IncOp(p, i)), CounterKey(p);
            && k != SAMPLE_SET && k in st' && st'[k].ACounter? && (k in st ==> st'[k].Key() == st[k].Key())
            && (k !in st ==> st'[k].Key() == k)
            && st'.Keys == st.Keys + {k} && forall j :: j in st && j != k ==> st'[j] == st[j]
  {
    assert |CounterKey(p)| == 14 && |SAMPLE_SET| == 10;
  }

  lemma EverywhereGrows(n: Net, a: Clock, b: Clock, exact: bool)
    requires Everywhere(n, TickedBy(a, exact)) && Leq(a, b)
    ensures Everywhere(n, TickedBy(b, exact))
  {
    var good, good' := TickedBy(a, exact), TickedBy(b, exact);
    forall k, o | good(k, o) ensures good'(k, o) {
      TickedGrows(a, b, exact, k, o);
    }
  }

  /** A publisher has moved on; only its own store may have changed. */
  lemma Moved(x: System, p: string, net': Net, pub': Publisher, exact: bool)
    requires Invariant(x, exact) && p in x.pubs && net'.replicas.Keys == x.net.replicas.Keys
    requires PublisherOk(pub', net'.replicas[p].store, p, exact)
    requires forall q :: q in x.net.replicas && q != p ==> net'.replicas[q] == x.net.replicas[q]
    requires Everywhere(net', TickedBy(Issued(x)[p := pub'.issued], exact))
    ensures Invariant(SetPublisher(x, net', p, pub'), exact)
  {
    MovedPublishers(x, p, net', pub', exact);
    assert Issued(SetPublisher(x, net', p, pub')) == Issued(x)[p := pub'.issued];
  }

  lemma MovedPublishers(x: System, p: string, net': Net, pub': Publisher, exact: bool)
    requires PublishersOk(x, exact) && p in x.pubs && net'.replicas.Keys == x.net.replicas.Keys
    requires PublisherOk(pub', net'.replicas[p].store, p, exact)
    requires forall q :: q in x.net.replicas && q != p ==> net'.replicas[q] == x.net.replicas[q]
    ensures PublishersOk(SetPublisher(x, net', p, pub'), exact)
  {
  }

  lemma LocalStore(n: Net, p: string, op: Operation)
    requires p in n.replicas && Refusal(n.replicas[p].store, op).None?
    ensures var n' := AfterLocal(n, p, op);
            && n'.replicas.Keys == n.replicas.Keys && n'.replicas[p].store == Submit(n.replicas[p].store, op)
            && n'.replicas[p].applying == n.replicas[p].applying
            && forall q :: q in n.replicas && q != p ==> n'.replicas[q] == n.replicas[q]
  {
  }

  /** What a tick needs of the node's state. */
  lemma TickReady(x: System, p: string, exact: bool)
    requires Invariant(x, exact) && p in x.pubs
    ensures p in x.net.replicas && 6 <= |p| <= 256 && !Blank(p) && p in Issued(x)
    ensures AllGood(x.net.replicas[p].store, TickedBy(Issued(x), exact))
    ensures PublisherOk(x.pubs[p], x.net.replicas[p].store, p, exact)
  {
  }

  lemma AddedEverywhere(n: Net, issued: Clock, p: string, i: nat, exact: bool)
    requires Everywhere(n, TickedBy(issued, exact)) && 6 <= |p| <= 256 && !Blank(p) && i < U64
    requires p in n.replicas && Entry(issued, p) <= i + 1
    requires exact ==> i <= Entry(SampleTimestamp(n.replicas[p].store), p) <= i + 1
    ensures Refusal(n.replicas[p].store, AddOp(p, i)).None?
    ensures var n' := AfterLocal(n, p, AddOp(p, i));
            && Everywhere(n', TickedBy(issued[p := i + 1], exact))
            && (exact ==> p in n'.replicas && Entry(SampleTimestamp(n'.replicas[p].store), p) == i + 1)
  {
    var issued' := issued[p := i + 1];
    assert Leq(issued, issued');
    AddedGood(issued, issued', exact, n.replicas[p].store, p, i);
    LocalStore(n, p, AddOp(p, i));
    EverywhereGrows(n, issued, issued', exact);
    LocalKeeps(n, p, AddOp(p, i), TickedBy(issued', exact));
  }

  lemma AddKeeps(x: System, p: string, exact: bool)
    requires Invariant(x, exact) && p in x.pubs && |p| >= 6
    ensures var i := x.pubs[p].counter;
            p in x.net.replicas
              && Invariant(SetPublisher(x, AfterLocal(x.net, p, AddOp(p, i)), p, Publisher(i, Added, i + 1)), exact)
  {
    TickReady(x, p, exact);
    var i := x.pubs[p].counter;
    AddedEverywhere(x.net, Issued(x), p, i, exact);
    LocalStore(x.net, p, AddOp(p, i));
    Moved(x, p, AfterLocal(x.net, p, AddOp(p, i)), Publisher(i, Added, i + 1), exact);
  }

  lemma IncrementedEverywhere(n: Net, issued: Clock, p: string, i: nat, exact: bool)
    requires Everywhere(n, TickedBy(issued, exact)) && 6 <= |p| <= 256 && !Blank(p) && i < U64 && p in issued
    requires p in n.replicas
    ensures Refusal(n.replicas[p].store, IncOp(p, i)).None?
    ensures var n' := AfterLocal(n, p, IncOp(p, i));
            && Everywhere(n', TickedBy(issued, exact))
            && p in n'.replicas && SampleTimestamp(n'.replicas[p].store) == SampleTimestamp(n.replicas[p].store)
  {
    IncrementedGood(issued, exact, n.replicas[p].store, p, i);
    LocalStore(n, p, IncOp(p, i));
    LocalKeeps(n, p, IncOp(p, i), TickedBy(issued, exact));
  }

  lemma IncrementKeeps(x: System, p: string, exact: bool)
    requires Invariant(x, exact) && p in x.pubs && |p| >= 6 && x.pubs[p].phase.Added?
    ensures var i, pub' := x.pubs[p].counter, x.pubs[p].(phase := Ready);
            p in x.net.replicas && Invariant(SetPublisher(x, AfterLocal(x.net, p, IncOp(p, i)), p, pub'), exact)
  {
    TickReady(x, p, exact);
    var i := x.pubs[p].counter;
    IncrementedEverywhere(x.net, Issued(x), p, i, exact);
    LocalStore(x.net, p, IncOp(p, i));
    assert Issued(x)[p := x.pubs[p].issued] == Issued(x);
    Moved(x, p, AfterLocal(x.net, p, IncOp(p, i)), x.pubs[p].(phase := Ready), exact);
  }

  lemma ExchangeKeeps(x: System, s: Step, net': Net, exact: bool)
    requires Invariant(x, exact) && !s.Local? && !s.Prune? && Next(x.net, s, net')
      && (exact ==> s.Snapshot? || s.Apply?)
    ensures Invariant(x.(net := net'), exact)
  {
    TickedClosed(Issued(x), exact);
    StepKeeps(x.net, s, net', TickedBy(Issued(x), exact));
    assert Issued(x.(net := net')) == Issued(x);
    if exact && s.Apply? && s.p in x.pubs {
      AppliedOwn(Issued(x), x.net.replicas[s.p].store, s.m.data, net'.replicas[s.p].store, s.p);
    }
  }

  /** Applying a message never raises a node's own entry above what it issued. */
  lemma AppliedOwn(issued: Clock, st: StoreState, msg: StoreState, st': StoreState, p: string)
    requires AllGood(st, TickedBy(issued, true)) && AllGood(msg, TickedBy(issued, true))
    requires SyncOf(Export(st), msg, st, st') && p in issued && Entry(SampleTimestamp(st), p) == issued[p]
    ensures Entry(SampleTimestamp(st'), p) == issued[p]
  {
    assert Synced(Export(st), msg, st, st', SAMPLE_SET);
    assert SAMPLE_SET in st ==> Ticked(issued, true, SAMPLE_SET, st[SAMPLE_SET]);
    assert SAMPLE_SET in msg ==> Ticked(issued, true, SAMPLE_SET, msg[SAMPLE_SET]);
  }

  lemma PublishKeeps(x: System, p: string, out: bool, ok: bool, x': System, exact: bool)
    requires Invariant(x, exact) && Act(x, Publish(p, out, ok), x')
    ensures Invariant(x', exact)
  {
    var y := x.(net := x'.net);
    if out { ExchangeKeeps(x, Snapshot(p), x'.net, exact); }
    TickReady(y, p, exact);
    assert Issued(y)[p := x'.pubs[p].issued] == Issued(y);
    Moved(y, p, y.net, x'.pubs[p], exact);
  }

  lemma TickAddKeeps(x: System, p: string, x': System, exact: bool)
    requires Invariant(x, exact) && Act(x, TickAdd(p), x')
    ensures Invariant(x', exact)
  {
    TickReady(x, p, exact);
    TickAccepted(Issued(x), exact, x.net.replicas[p].store, p, x.pubs[p].counter);
    AcceptedAdd(x, p, x');
    AddKeeps(x, p, exact);
  }

  lemma AcceptedAdd(x: System, p: string, x': System)
    requires Act(x, TickAdd(p), x') && p in x.net.replicas
      && Refusal(x.net.replicas[p].store, AddOp(p, x.pubs[p].counter)).None?
    ensures var i := x.pubs[p].counter; x' == SetPublisher(x, AfterLocal(x.net, p, AddOp(p, i)), p,
                                                           Publisher(i, Added, i + 1))
  {
  }

  lemma ActKeeps(x: System, a: Action, x': System, exact: bool)
    requires Invariant(x, exact) && Act(x, a, x')
    requires exact && a.Exchange? ==> a.s.Snapshot? || a.s.Apply?
    ensures Invariant(x', exact)
  {
    match a
    case TickAdd(p) => TickAddKeeps(x, p, x', exact);
    case TickInc(p) => IncrementKeeps(x, p, exact);
    case Publish(p, out, ok) => PublishKeeps(x, p, out, ok, x', exact);
    case Exchange(s) => ExchangeKeeps(x, s, x'.net, exact);
  }

  lemma HistoryKeeps(xs: seq<System>, acts: seq<Action>, i: nat, next: nat, exact: bool)
    requires IsHistory(xs, acts) && i < |acts| && next == i + 1 && (exact ==> Atomic(acts)) && Invariant(xs[i], exact)
    ensures Invariant(xs[next], exact)
  {
    assert ActAt(xs, acts, i);
    ActKeeps(xs[i], acts[i], xs[next], exact);
  }

  lemma StartInvariant(x: System, exact: bool)
    requires Start(x)
    ensures Invariant(x, exact)
  {
  }

  /** The invariant holds throughout every run; the exact one when messages are applied atomically. */
  lemma {:induction false} InvariantHolds(xs: seq<System>, acts: seq<Action>, i: nat, exact: bool)
    requires IsHistory(xs, acts) && i < |xs| && (exact ==> Atomic(acts))
    ensures Invariant(xs[i], exact)
  {
    if i == 0 {
      StartInvariant(xs[i], exact);
    } else {
      var before := i - 1;
      InvariantHolds(xs, acts, before, exact);
      HistoryKeeps(xs, acts, before, i, exact);
    }
  }

  // ---- What holds in every run ----

  /** o is stored under k at some node, or is part of a snapshot being used or of a message. */
  ghost predicate Occurs(n: Net, k: string, o: ObjectState) {
    || (exists p :: p in n.replicas && InReplica(n.replicas[p], k, o))
    || (exists m :: m in n.sent && At(m.data, k, o))
  }

  ghost predicate At(st: StoreState, k: string, o: ObjectState) {
    k in st && st[k] == o
  }

  ghost predicate InReplica(r: Replica, k: string, o: ObjectState) {
    At(r.store, k, o) || (r.applying.Some? && (At(r.applying.value.snap, k, o) || At(r.applying.value.msg, k, o)))
  }

  lemma OccursGood(n: Net, good: Good, k: string, o: ObjectState)
    requires Everywhere(n, good) && Occurs(n, k, o)
    ensures good(k, o)
  {
  }

  /** The writer, index and clock of an element follow from its name. */
  lemma WriterUnique(pubs: map<string, Publisher>, a: Clock, b: Clock, p: string, i: nat, q: string, j: nat,
                     e: string, c: Clock, d: Clock)
    requires ValidNodes(pubs) && a.Keys <= pubs.Keys && b.Keys <= pubs.Keys
    requires Wrote(a, p, i, e, c) && Wrote(b, q, j, e, d)
    ensures p == q && i == j && c == d
  {
    ElementNameInjective(p, i, q, j);
  }

  /** In every run with atomic applies, wherever the sample set occurs: element p-i is visible exactly
      when i is below the set's timestamp for p, with the clock p gave it; p has issued at least that
      many; and p's own store has all p issued. Each node thus holds a gap-free prefix of what each
      publisher added, and the set's timestamp tells which, also when failed publishes repeat a tick. */
  lemma GapFreePrefixes(xs: seq<System>, acts: seq<Action>, t: nat, o: ObjectState, p: string, i: nat)
    requires IsHistory(xs, acts) && t < |xs| && Atomic(acts)
    requires Occurs(xs[t].net, SAMPLE_SET, o) && p in xs[t].pubs && |p| >= 6 && p in xs[t].net.replicas
    ensures o.ASet? && (Visible(o.s, ElementName(p, i)) <==> i < Entry(o.s.timestamp, p))
    ensures Visible(o.s, ElementName(p, i)) ==> o.s.adds[ElementName(p, i)] == map[p := i + 1]
    ensures Entry(o.s.timestamp, p) <= xs[t].pubs[p].issued
    ensures Entry(SampleTimestamp(xs[t].net.replicas[p].store), p) == xs[t].pubs[p].issued
  {
    var x := xs[t];
    InvariantHolds(xs, acts, t, true);
    CopyIsSummary(xs, acts, t, o);
    SummaryDecides(x.pubs, Issued(x), o.s, p, i);
  }

  /** Every copy of the sample set holds what its timestamp announces. */
  lemma CopyIsSummary(xs: seq<System>, acts: seq<Action>, t: nat, o: ObjectState)
    requires IsHistory(xs, acts) && t < |xs| && Atomic(acts) && Occurs(xs[t].net, SAMPLE_SET, o)
    ensures ValidNodes(xs[t].pubs) && o.ASet? && Summarised(Issued(xs[t]), o.s) && o.s.key == SAMPLE_SET
  {
    InvariantHolds(xs, acts, t, true);
    OccursGood(xs[t].net, TickedBy(Issued(xs[t]), true), SAMPLE_SET, o);
  }

  lemma SummaryDecides(pubs: map<string, Publisher>, issued: Clock, s: SetState, p: string, i: nat)
    requires ValidNodes(pubs) && issued.Keys <= pubs.Keys && Summarised(issued, s) && p in pubs && |p| >= 6
    ensures ElementName(p, i) in s.adds <==> i < Entry(s.timestamp, p)
    ensures ElementName(p, i) in s.adds ==> s.adds[ElementName(p, i)] == TickClock(p, i)
    ensures s.removes == map[]
  {
    var e := ElementName(p, i);
    if e in s.adds {
      var q, j :| Wrote(s.timestamp, q, j, e, s.adds[e]);
      ElementNameInjective(p, i, q, j);
    }
  }

  /** So sample sets with equal timestamps are equal, wherever they are. */
  lemma TimestampDecidesSet(xs: seq<System>, acts: seq<Action>, t: nat, a: ObjectState, b: ObjectState)
    requires IsHistory(xs, acts) && t < |xs| && Atomic(acts)
    requires Occurs(xs[t].net, SAMPLE_SET, a) && Occurs(xs[t].net, SAMPLE_SET, b)
    ensures a.ASet? && b.ASet? && (a == b <==> a.s.timestamp == b.s.timestamp)
  {
    CopyIsSummary(xs, acts, t, a);
    CopyIsSummary(xs, acts, t, b);
    if a.s.timestamp == b.s.timestamp {
      SameSummary(xs[t].pubs, Issued(xs[t]), a.s, b.s);
      SameSummary(xs[t].pubs, Issued(xs[t]), b.s, a.s);
      assert a.s.adds == b.s.adds;
    }
  }

  lemma SameSummary(pubs: map<string, Publisher>, issued: Clock, a: SetState, b: SetState)
    requires ValidNodes(pubs) && issued.Keys <= pubs.Keys && Summarised(issued, a) && Summarised(issued, b)
    requires a.timestamp == b.timestamp
    ensures forall e :: e in a.adds ==> e in b.adds && b.adds[e] == a.adds[e]
  {
    forall e | e in a.adds ensures e in b.adds && b.adds[e] == a.adds[e] {
      var p, i :| Wrote(a.timestamp, p, i, e, a.adds[e]);
      SummaryDecides(pubs, issued, a, p, i);
      SummaryDecides(pubs, issued, b, p, i);
    }
  }

  /** In every run, split applies included: an element clock recorded anywhere is the one its writer
      issued, so merge never has to choose between two different clocks. */
  lemma MergeNeverChooses(xs: seq<System>, acts: seq<Action>, t: nat, a: ObjectState, b: ObjectState, e: string)
    requires IsHistory(xs, acts) && t < |xs|
    requires Occurs(xs[t].net, SAMPLE_SET, a) && Occurs(xs[t].net, SAMPLE_SET, b)
    ensures a.ASet? && b.ASet? && a.s.removes == map[]
    ensures e in a.s.adds ==> Written(Issued(xs[t]), e, a.s.adds[e])
    ensures e in a.s.adds && e in b.s.adds ==> a.s.adds[e] == b.s.adds[e]
  {
    var x := xs[t];
    InvariantHolds(xs, acts, t, false);
    OccursGood(x.net, TickedBy(Issued(x), false), SAMPLE_SET, a);
    OccursGood(x.net, TickedBy(Issued(x), false), SAMPLE_SET, b);
    if e in a.s.adds && e in b.s.adds {
      var p, i :| Wrote(Issued(x), p, i, e, a.s.adds[e]);
      var q, j :| Wrote(Issued(x), q, j, e, b.s.adds[e]);
      WriterUnique(x.pubs, Issued(x), Issued(x), p, i, q, j, e, a.s.adds[e], b.s.adds[e]);
    }
  }

  /** In every run, split applies included, merges never fail on kind or key, and ticks are never refused. */
  lemma NothingFails(xs: seq<System>, acts: seq<Action>, t: nat, k: string, a: ObjectState, b: ObjectState, p: string)
    requires IsHistory(xs, acts) && t < |xs|
    requires Occurs(xs[t].net, k, a) && Occurs(xs[t].net, k, b) && p in xs[t].pubs && p in xs[t].net.replicas
      && |p| >= 6
    ensures Mergeable(a, b)
    ensures Refusal(xs[t].net.replicas[p].store, AddOp(p, xs[t].pubs[p].counter)).None?
    ensures Refusal(xs[t].net.replicas[p].store, IncOp(p, xs[t].pubs[p].counter)).None?
  {
    var x := xs[t];
    InvariantHolds(xs, acts, t, false);
    OccursGood(x.net, TickedBy(Issued(x), false), k, a);
    OccursGood(x.net, TickedBy(Issued(x), false), k, b);
    TickAccepted(Issued(x), false, x.net.replicas[p].store, p, x.pubs[p].counter);
  }
}
