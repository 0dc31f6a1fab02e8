/** When a lost element can come back, and that it need not: every network of two publishers can lose
    an element for good. */
module Loss {
  import opened Clocks
  import opened Crdts
  import opened Engines
  import opened LocalData
  import opened Network
  import opened Convergence
  import opened Protocol
  import opened Gap

  // ---- What can still happen ----

  ghost predicate Reaches(x: System, acts: seq<Action>, x': System)
    decreases |acts|
  {
    if acts == [] then x' == x
    else exists mid :: Act(x, acts[0], mid) && Reaches(mid, acts[1..], x')
  }

  ghost predicate SomeoneShows(x: System, e: string) {
    exists q :: q in x.net.replicas && e in ShownAt(x, q)
  }

  /** Some continuation lets some reader see the element. */
  ghost predicate CanShow(x: System, e: string) {
    exists acts, x' :: Reaches(x, acts, x') && SomeoneShows(x', e)
  }

  lemma ShowsNow(x: System, q: string, e: string)
    requires q in x.net.replicas && e in ShownAt(x, q)
    ensures CanShow(x, e)
  {
    assert Reaches(x, [], x) && SomeoneShows(x, e);
  }

  lemma ShowsLater(x: System, a: Action, x1: System, e: string)
    requires Act(x, a, x1) && CanShow(x1, e)
    ensures CanShow(x, e)
  {
    var acts, x' :| Reaches(x1, acts, x') && SomeoneShows(x', e);
    assert ([a] + acts)[1..] == acts;
    assert Reaches(x, [a] + acts, x');
  }

  /** The element is in no store, no message and no snapshot in use. */
  ghost function Lacks(e: string): Good {
    (k: string, o: ObjectState) => k == SAMPLE_SET && o.ASet? ==> e !in o.s.adds
  }

  ghost predicate Nowhere(n: Net, e: string) {
    Everywhere(n, Lacks(e))
  }

  lemma LacksElements(st: StoreState, e: string)
    ensures AllGood(st, Lacks(e)) <==> e !in Elements(st)
  {
    var good := Lacks(e);
    if AllGood(st, good) && SAMPLE_SET in st { assert good(SAMPLE_SET, st[SAMPLE_SET]); }
  }

  lemma LacksClosed(e: string)
    ensures Closed(Lacks(e))
  {
  }

  // ---- Gone for good ----

  /** Nobody brings back an element that is nowhere, except its writer while its tick is not counted. */
  lemma NowhereStep(x: System, a: Action, x': System, p: string, i: nat)
    requires Invariant(x, false) && Act(x, a, x') && p in x.pubs && |p| >= 6 && Nowhere(x.net, ElementName(p, i))
    requires a == TickAdd(p) ==> x.pubs[p].counter > i
    ensures Nowhere(x'.net, ElementName(p, i))
  {
    var e := ElementName(p, i);
    LacksClosed(e);
    match a
    case TickAdd(q) => NowhereAdd(x, q, x', p, i);
    case TickInc(q) => NowhereIncrement(x, q, x', e);
    case Publish(q, out, _) => if out { StepKeeps(x.net, Snapshot(q), x'.net, Lacks(e)); }
    case Exchange(s) => StepKeeps(x.net, s, x'.net, Lacks(e));
  }

  lemma NowhereAdd(x: System, q: string, x': System, p: string, i: nat)
    requires Invariant(x, false) && Act(x, TickAdd(q), x') && p in x.pubs && |p| >= 6
    requires Nowhere(x.net, ElementName(p, i)) && (q == p ==> x.pubs[p].counter > i)
    ensures Nowhere(x'.net, ElementName(p, i))
  {
    var e, st, j := ElementName(p, i), x.net.replicas[q].store, x.pubs[q].counter;
    TickReady(x, q, false);
    TickAddElements(Issued(x), st, q, j);
    AcceptedAdd(x, q, x');
    if ElementName(q, j) == e { ElementNameInjective(q, j, p, i); }
    LacksElements(st, e);
    LacksElements(Submit(st, AddOp(q, j)), e);
    LocalKeeps(x.net, q, AddOp(q, j), Lacks(e));
  }

  lemma NowhereIncrement(x: System, q: string, x': System, e: string)
    requires Invariant(x, false) && Act(x, TickInc(q), x') && Nowhere(x.net, e)
    ensures Nowhere(x'.net, e)
  {
    var st, j := x.net.replicas[q].store, x.pubs[q].counter;
    TickReady(x, q, false);
    TickIncElements(Issued(x), st, q, j);
    LacksElements(st, e);
    LacksElements(Submit(st, IncOp(q, j)), e);
    LocalKeeps(x.net, q, IncOp(q, j), Lacks(e));
  }

  lemma {:induction false} GoneForGood(x: System, acts: seq<Action>, x': System, p: string, i: nat)
    requires Invariant(x, false) && Reaches(x, acts, x') && p in x.pubs && |p| >= 6
    requires Nowhere(x.net, ElementName(p, i)) && x.pubs[p].counter > i
    ensures !SomeoneShows(x', ElementName(p, i))
    decreases |acts|
  {
    var e := ElementName(p, i);
    if acts == [] {
      forall q | q in x.net.replicas ensures e !in ShownAt(x, q) {
        GoodAt(x, q);
        AllShown(Issued(x), x.net.replicas[q].store);
        LacksElements(x.net.replicas[q].store, e);
      }
    } else {
      var mid :| Act(x, acts[0], mid) && Reaches(mid, acts[1..], x');
      NowhereStep(x, acts[0], mid, p, i);
      ActKeeps(x, acts[0], mid, false);
      StillPublishes(x, acts[0], mid, p);
      IssuedBound(x, p);
      ActGrows(x, acts[0], mid, p);
      GoneForGood(mid, acts[1..], x', p, i);
    }
  }

  lemma StillPublishes(x: System, a: Action, x': System, p: string)
    requires Act(x, a, x') && p in x.pubs
    ensures p in x'.pubs
  {
  }

  // ---- Still to be had ----

  /** A message being applied is one that was sent by another node, and once the sample set is no longer
      to be installed, the store has what the snapshot had. */
  ghost predicate ApplyingOk(n: Net, q: string)
    requires q in n.replicas
  {
    var r := n.replicas[q];
    r.applying.Some? ==>
      && (exists m :: m in n.sent && m.from != q && m.data == r.applying.value.msg)
      && r.applying.value.todo <= r.applying.value.msg.Keys
      && (SAMPLE_SET !in r.applying.value.todo ==> Elements(r.applying.value.snap) <= Elements(r.store))
  }

  ghost predicate AllApplyingOk(n: Net) {
    forall q :: q in n.replicas ==> ApplyingOk(n, q)
  }

  /** The node's set has grown at most, and it is applying what it was applying. */
  lemma GrownOk(n: Net, n': Net, q: string)
    requires q in n.replicas && q in n'.replicas && ApplyingOk(n, q) && n.sent <= n'.sent
    requires n'.replicas[q].applying == n.replicas[q].applying
    requires Elements(n.replicas[q].store) <= Elements(n'.replicas[q].store)
    ensures ApplyingOk(n', q)
  {
  }

  lemma ExchangeOk(n: Net, s: Step, n': Net, q: string, issued: Clock)
    requires Next(n, s, n') && !s.Local? && !s.Prune? && q in n.replicas && ApplyingOk(n, q)
    requires GoodReplica(n.replicas[q], TickedBy(issued, false))
    ensures q in n'.replicas && ApplyingOk(n', q)
  {
    var r, r' := n.replicas[q], n'.replicas[q];
    if s.p == q && s.Install? {
      if s.key == SAMPLE_SET {
        InstallForgets(issued, r.applying.value.snap, r.applying.value.msg, r.store, r'.store);
      } else {
        OtherInstall(r.applying.value.snap, r.applying.value.msg, s.key, r.store, r'.store);
      }
    } else if s.p == q && s.Begin? {
      ExportKeepsElements(r.store);
    }
  }

  lemma AddOk(x: System, p: string, x': System, q: string)
    requires Invariant(x, false) && Act(x, TickAdd(p), x') && q in x.net.replicas && ApplyingOk(x.net, q)
    ensures q in x'.net.replicas && ApplyingOk(x'.net, q)
  {
    TickReady(x, p, false);
    TickAddElements(Issued(x), x.net.replicas[p].store, p, x.pubs[p].counter);
    AcceptedAdd(x, p, x');
    LocalStore(x.net, p, AddOp(p, x.pubs[p].counter));
    GrownOk(x.net, x'.net, q);
  }

  lemma IncrementOk(x: System, p: string, x': System, q: string)
    requires Invariant(x, false) && Act(x, TickInc(p), x') && q in x.net.replicas && ApplyingOk(x.net, q)
    ensures q in x'.net.replicas && ApplyingOk(x'.net, q)
  {
    TickReady(x, p, false);
    TickIncElements(Issued(x), x.net.replicas[p].store, p, x.pubs[p].counter);
    LocalStore(x.net, p, IncOp(p, x.pubs[p].counter));
    GrownOk(x.net, x'.net, q);
  }

  lemma ActOk(x: System, a: Action, x': System, q: string)
    requires Invariant(x, false) && Act(x, a, x') && q in x.net.replicas && ApplyingOk(x.net, q)
    ensures q in x'.net.replicas && ApplyingOk(x'.net, q)
  {
    match a
    case TickAdd(p) => AddOk(x, p, x', q);
    case TickInc(p) => IncrementOk(x, p, x', q);
    case Publish(p, out, _) => GrownOk(x.net, x'.net, q);
    case Exchange(s) =>
      GoodAt(x, q);
      ExchangeOk(x.net, s, x'.net, q, Issued(x));
  }

  lemma {:induction false} ApplyingStaysOk(xs: seq<System>, acts: seq<Action>, i: nat)
    requires IsHistory(xs, acts) && i < |xs|
    ensures AllApplyingOk(xs[i].net)
  {
    if i == 0 {
      StartOk(xs[i]);
    } else {
      var before := i - 1;
      ApplyingStaysOk(xs, acts, before);
      NextOk(xs, acts, before, i);
    }
  }

  lemma StartOk(x: System)
    requires Start(x)
    ensures AllApplyingOk(x.net)
  {
  }

  lemma NextOk(xs: seq<System>, acts: seq<Action>, i: nat, next: nat)
    requires IsHistory(xs, acts) && i < |acts| && next == i + 1 && AllApplyingOk(xs[i].net)
    ensures AllApplyingOk(xs[next].net)
  {
    InvariantHolds(xs, acts, i, false);
    assert ActAt(xs, acts, i);
    AllActOk(xs[i], acts[i], xs[next]);
  }

  lemma AllActOk(x: System, a: Action, x': System)
    requires Invariant(x, false) && Act(x, a, x') && AllApplyingOk(x.net)
    ensures AllApplyingOk(x'.net)
  {
    SameNodes(x, a, x');
    forall q | q in x'.net.replicas ensures ApplyingOk(x'.net, q) {
      ActOk(x, a, x', q);
    }
  }

  lemma SameNodes(x: System, a: Action, x': System)
    requires Act(x, a, x')
    ensures x'.net.replicas.Keys == x.net.replicas.Keys
  {
  }

  // ---- Steps that can be taken ----

  /** Shorthand for a system in which q's replica is r. */
  function WithReplica(x: System, q: string, r: Replica): System {
    x.(net := x.net.(replicas := x.net.replicas[q := r]))
  }

  lemma CanApply(x: System, q: string, m: Packet) returns (x': System)
    requires q in x.net.replicas && x.net.replicas[q].applying.None? && m in x.net.sent && m.from != q
    ensures Act(x, Exchange(Apply(q, m)), x') && q in x'.net.replicas
    ensures SyncOf(Export(x.net.replicas[q].store), m.data, x.net.replicas[q].store, x'.net.replicas[q].store)
  {
    var r := x.net.replicas[q];
    var st := SomeStore(Export(r.store), m.data, r.store);
    x' := WithReplica(x, q, r.(store := st, known := Lub(r.known, m.known)));
  }

  lemma CanBegin(x: System, q: string, m: Packet) returns (x': System)
    requires q in x.net.replicas && x.net.replicas[q].applying.None? && m in x.net.sent && m.from != q
    ensures Act(x, Exchange(Begin(q, m)), x') && x'.pubs == x.pubs && q in x'.net.replicas
    ensures x'.net.replicas[q].applying == Some(Applying(Export(x.net.replicas[q].store), m.data, m.data.Keys))
    ensures x'.net.replicas[q].store == x.net.replicas[q].store
  {
    var r := x.net.replicas[q];
    x' := WithReplica(x, q, r.(applying := Some(Applying(Export(r.store), m.data, m.data.Keys))));
  }

  lemma CanInstall(x: System, q: string, key: string) returns (x': System)
    requires q in x.net.replicas && x.net.replicas[q].applying.Some? && key in x.net.replicas[q].applying.value.todo
    ensures Act(x, Exchange(Install(q, key)), x') && x'.net.sent == x.net.sent && q in x'.net.replicas
      && x'.pubs == x.pubs
    ensures var a, a' := x.net.replicas[q].applying.value, x'.net.replicas[q].applying;
            && a'.Some? && a'.value.todo == a.todo - {key}
            && SyncOf(a.snap, map k | k in a.msg && k == key :: a.msg[k], x.net.replicas[q].store,
                      x'.net.replicas[q].store)
  {
    var r := x.net.replicas[q];
    var a := r.applying.value;
    var st := SomeStore(a.snap, map k | k in a.msg && k == key :: a.msg[k], r.store);
    x' := WithReplica(x, q, r.(store := st, applying := Some(a.(todo := a.todo - {key}))));
  }

  lemma CanFinish(x: System, q: string) returns (x': System)
    requires q in x.net.replicas && x.net.replicas[q].applying.Some? && x.net.replicas[q].applying.value.todo == {}
    ensures Act(x, Exchange(Finish(q)), x') && x'.net.sent == x.net.sent
    ensures q in x'.net.replicas && x'.net.replicas[q].applying.None?
  {
    x' := WithReplica(x, q, x.net.replicas[q].(applying := None));
  }

  /** p has added its next element. */
  function AfterAdd(x: System, p: string): System
    requires p in x.pubs && |p| >= 6 && p in x.net.replicas
  {
    var i := x.pubs[p].counter;
    SetPublisher(x, AfterLocal(x.net, p, AddOp(p, i)), p, Publisher(i, Added, i + 1))
  }

  lemma CanAdd(x: System, p: string)
    requires Invariant(x, false) && p in x.pubs && |p| >= 6 && x.pubs[p].phase.Idle?
    ensures p in x.net.replicas && Act(x, TickAdd(p), AfterAdd(x, p)) && Invariant(AfterAdd(x, p), false)
    ensures ShownAt(AfterAdd(x, p), p) == ShownAt(x, p) + {ElementName(p, x.pubs[p].counter)}
  {
    TickReady(x, p, false);
    TickAddElements(Issued(x), x.net.replicas[p].store, p, x.pubs[p].counter);
    AddActs(x, p);
    ActKeeps(x, TickAdd(p), AfterAdd(x, p), false);
    LocalStore(x.net, p, AddOp(p, x.pubs[p].counter));
    ShownElements(x, p);
    ShownElements(AfterAdd(x, p), p);
  }

  lemma AddActs(x: System, p: string)
    requires p in x.pubs && |p| >= 6 && p in x.net.replicas && x.pubs[p].phase.Idle?
    requires Refusal(x.net.replicas[p].store, AddOp(p, x.pubs[p].counter)).None?
    ensures Act(x, TickAdd(p), AfterAdd(x, p))
  {
  }

  lemma ShownElements(x: System, q: string)
    requires Invariant(x, false) && q in x.net.replicas
    ensures ShownAt(x, q) == Elements(x.net.replicas[q].store)
  {
    GoodAt(x, q);
    AllShown(Issued(x), x.net.replicas[q].store);
  }

  function AfterIncrement(x: System, p: string): System
    requires p in x.pubs && |p| >= 6 && p in x.net.replicas
  {
    SetPublisher(x, AfterLocal(x.net, p, IncOp(p, x.pubs[p].counter)), p, x.pubs[p].(phase := Ready))
  }

  lemma CanIncrement(x: System, p: string)
    requires p in x.pubs && |p| >= 6 && p in x.net.replicas && x.pubs[p].phase.Added?
    ensures Act(x, TickInc(p), AfterIncrement(x, p))
  {
  }

  /** Publishing that fails, or succeeds without the message getting anywhere. */
  lemma CanPublish(x: System, p: string, ok: bool) returns (x': System)
    requires p in x.pubs && x.pubs[p].phase.Ready? && (ok ==> x.pubs[p].counter + 1 < U64)
    ensures Act(x, Publish(p, false, ok), x') && x'.net == x.net && p in x'.pubs
    ensures x'.pubs[p] == Publisher(x.pubs[p].counter + if ok then 1 else 0, Idle, x.pubs[p].issued)
  {
    x' := SetPublisher(x, x.net, p, Publisher(x.pubs[p].counter + if ok then 1 else 0, Idle, x.pubs[p].issued));
  }

  // ---- The exact condition ----

  /** A message can be delivered to any other node, which may have to finish another one first. */
  lemma {:induction false} DeliveryShows(x: System, q: string, m: Packet, e: string)
    requires Invariant(x, false) && q in x.net.replicas && m in x.net.sent && m.from != q && e in Elements(m.data)
    ensures CanShow(x, e)
    decreases if x.net.replicas[q].applying.Some? then 1 + |x.net.replicas[q].applying.value.todo| else 0
  {
    var r := x.net.replicas[q];
    if r.applying.None? {
      var x' := CanApply(x, q, m);
      ActKeeps(x, Exchange(Apply(q, m)), x', false);
      AppliedShows(x, q, m, x', e);
      ShowsNow(x', q, e);
      ShowsLater(x, Exchange(Apply(q, m)), x', e);
    } else if r.applying.value.todo == {} {
      var x' := CanFinish(x, q);
      ActKeeps(x, Exchange(Finish(q)), x', false);
      DeliveryShows(x', q, m, e);
      ShowsLater(x, Exchange(Finish(q)), x', e);
    } else {
      var key :| key in r.applying.value.todo;
      var x' := CanInstall(x, q, key);
      ActKeeps(x, Exchange(Install(q, key)), x', false);
      DeliveryShows(x', q, m, e);
      ShowsLater(x, Exchange(Install(q, key)), x', e);
    }
  }

  lemma AppliedShows(x: System, q: string, m: Packet, x': System, e: string)
    requires Invariant(x, false) && Invariant(x', false) && q in x.net.replicas && q in x'.net.replicas
      && m in x.net.sent
    requires SyncOf(Export(x.net.replicas[q].store), m.data, x.net.replicas[q].store, x'.net.replicas[q].store)
    requires e in Elements(m.data)
    ensures e in ShownAt(x', q)
  {
    var st, st', issued := x.net.replicas[q].store, x'.net.replicas[q].store, Issued(x);
    GoodAt(x, q);
    assert AllGood(m.data, TickedBy(issued, false));
    assert Synced(Export(st), m.data, st, st', SAMPLE_SET);
    assert Ticked(issued, false, SAMPLE_SET, m.data[SAMPLE_SET]);
    assert SAMPLE_SET in st ==> Ticked(issued, false, SAMPLE_SET, st[SAMPLE_SET]);
    ShownElements(x', q);
  }

  /** A snapshot with the sample set still to be installed can be installed. */
  lemma InstallShows(x: System, q: string, e: string)
    requires Invariant(x, false) && AllApplyingOk(x.net) && q in x.net.replicas && x.net.replicas[q].applying.Some?
    requires SAMPLE_SET in x.net.replicas[q].applying.value.todo && e in Elements(x.net.replicas[q].applying.value.snap)
    ensures CanShow(x, e)
  {
    var a := x.net.replicas[q].applying.value;
    var x' := CanInstall(x, q, SAMPLE_SET);
    assert ApplyingOk(x.net, q);
    GoodAt(x, q);
    InstallForgets(Issued(x), a.snap, a.msg, x.net.replicas[q].store, x'.net.replicas[q].store);
    ActKeeps(x, Exchange(Install(q, SAMPLE_SET)), x', false);
    ShownElements(x', q);
    ShowsNow(x', q, e);
    ShowsLater(x, Exchange(Install(q, SAMPLE_SET)), x', e);
  }

  /** A tick that is not counted is repeated. */
  lemma RepeatShows(x: System, p: string, e: string)
    requires Invariant(x, false) && p in x.pubs && |p| >= 6 && e == ElementName(p, x.pubs[p].counter)
    ensures CanShow(x, e)
    decreases match x.pubs[p].phase case Idle => 0 case Ready => 1 case Added => 2
  {
    TickReady(x, p, false);
    match x.pubs[p].phase
    case Idle =>
      CanAdd(x, p);
      ShowsNow(AfterAdd(x, p), p, e);
      ShowsLater(x, TickAdd(p), AfterAdd(x, p), e);
    case Ready =>
      var x' := CanPublish(x, p, false);
      ActKeeps(x, Publish(p, false, false), x', false);
      RepeatShows(x', p, e);
      ShowsLater(x, Publish(p, false, false), x', e);
    case Added =>
      CanIncrement(x, p);
      ActKeeps(x, TickInc(p), AfterIncrement(x, p), false);
      RepeatShows(AfterIncrement(x, p), p, e);
      ShowsLater(x, TickInc(p), AfterIncrement(x, p), e);
  }

  lemma OccurringShows(x: System, e: string, q1: string, q2: string)
    requires Invariant(x, false) && AllApplyingOk(x.net) && !Nowhere(x.net, e)
    requires q1 in x.net.replicas && q2 in x.net.replicas && q1 != q2
    ensures CanShow(x, e)
  {
    if q :| q in x.net.replicas && !GoodReplica(x.net.replicas[q], Lacks(e)) {
      ReplicaShows(x, q, e);
    } else {
      var m :| m in x.net.sent && !AllGood(m.data, Lacks(e));
      LacksElements(m.data, e);
      DeliveryShows(x, if m.from == q1 then q2 else q1, m, e);
    }
  }

  lemma ReplicaShows(x: System, q: string, e: string)
    requires Invariant(x, false) && AllApplyingOk(x.net)
    requires q in x.net.replicas && !GoodReplica(x.net.replicas[q], Lacks(e))
    ensures CanShow(x, e)
  {
    var r := x.net.replicas[q];
    assert ApplyingOk(x.net, q);
    LacksElements(r.store, e);
    if e in Elements(r.store) {
      ShownElements(x, q);
      ShowsNow(x, q, e);
    } else {
      LacksElements(r.applying.value.snap, e);
      LacksElements(r.applying.value.msg, e);
      if e in Elements(r.applying.value.snap) {
        InstallShows(x, q, e);
      } else {
        var m :| m in x.net.sent && m.from != q && m.data == r.applying.value.msg;
        DeliveryShows(x, q, m, e);
      }
    }
  }

  /** In every state of every history of at least two nodes: an element that p has added can be seen (again)
      if and only if it still occurs somewhere or its tick has not been counted, so that it is repeated. */
  lemma ReturnsIff(xs: seq<System>, acts: seq<Action>, t: nat, p: string, i: nat, q: string)
    requires IsHistory(xs, acts) && t < |xs| && p in xs[t].pubs && |p| >= 6 && i < xs[t].pubs[p].issued
    requires p in xs[t].net.replicas && q in xs[t].net.replicas && p != q
    ensures CanShow(xs[t], ElementName(p, i)) <==> Recoverable(xs[t], p, i)
  {
    InvariantHolds(xs, acts, t, false);
    ApplyingStaysOk(xs, acts, t);
    if Recoverable(xs[t], p, i) { RecoverableShows(xs[t], p, i, q); } else { NeverShows(xs[t], p, i); }
  }

  /** The element occurs somewhere, or the tick that adds it is not counted and will be repeated. */
  ghost predicate Recoverable(x: System, p: string, i: nat)
    requires p in x.pubs && |p| >= 6
  {
    !Nowhere(x.net, ElementName(p, i)) || x.pubs[p].counter <= i
  }

  lemma RecoverableShows(x: System, p: string, i: nat, q: string)
    requires Invariant(x, false) && AllApplyingOk(x.net) && p in x.pubs && |p| >= 6 && i < x.pubs[p].issued
    requires p in x.net.replicas && q in x.net.replicas && p != q && Recoverable(x, p, i)
    ensures CanShow(x, ElementName(p, i))
  {
    if x.pubs[p].counter <= i {
      IssuedBound(x, p);
      assert x.pubs[p].counter == i;
      RepeatShows(x, p, ElementName(p, i));
    } else {
      OccurringShows(x, ElementName(p, i), p, q);
    }
  }

  // ---- Every pair of publishers can lose an element for good ----

  /** Message m can be applied at p, which is between two ticks. */
  ghost predicate CanRace(x: System, p: string, m: Packet) {
    && p in x.pubs && x.pubs[p].phase.Idle? && x.pubs[p].issued == x.pubs[p].counter && x.pubs[p].counter + 1 < U64
    && p in x.net.replicas && x.net.replicas[p].applying.None?
    && m in x.net.sent && m.from != p && SAMPLE_SET in m.data
  }

  lemma FreshNowhere(x: System, p: string, i: nat)
    requires Invariant(x, false) && p in x.pubs && |p| >= 6 && x.pubs[p].issued <= i
    ensures Nowhere(x.net, ElementName(p, i))
  {
    var e, good := ElementName(p, i), TickedBy(Issued(x), false);
    forall st: StoreState | AllGood(st, good) ensures AllGood(st, Lacks(e)) {
      NotYetWritten(x.pubs, Issued(x), st, p, i);
      LacksElements(st, e);
    }
  }

  /** Whenever a message with a sample set is on its way to an idle node, the node can go on such that it
      shows its next element, drops it while applying the message, and nobody ever shows it again. */
  lemma LossIsPossible(xs: seq<System>, acts: seq<Action>, t: nat, p: string, m: Packet)
    returns (x1: System, x2: System, x3: System, x4: System, x5: System)
    requires IsHistory(xs, acts) && t < |xs| && CanRace(xs[t], p, m) && |p| >= 6
    ensures Act(xs[t], Exchange(Begin(p, m)), x1) && Act(x1, TickAdd(p), x2)
      && Act(x2, Exchange(Install(p, SAMPLE_SET)), x3)
    ensures Act(x3, TickInc(p), x4) && Act(x4, Publish(p, false, true), x5)
    ensures var e := ElementName(p, xs[t].pubs[p].counter); e in ShownAt(x2, p) && !CanShow(x5, e)
  {
    var i := xs[t].pubs[p].counter;
    x1 := RaceBegins(xs, acts, t, p, m, i);
    x2 := AfterAdd(x1, p);
    x3 := AddAndInstall(x1, p, i);
    AddedIsDropped(x1, x3, p, i);
    x4, x5 := Count(x3, p, i);
  }

  lemma RaceBegins(xs: seq<System>, acts: seq<Action>, t: nat, p: string, m: Packet, i: nat) returns (x1: System)
    requires IsHistory(xs, acts) && t < |xs| && CanRace(xs[t], p, m) && |p| >= 6 && i == xs[t].pubs[p].counter
    ensures Act(xs[t], Exchange(Begin(p, m)), x1) && Invariant(x1, false)
    ensures p in x1.pubs && x1.pubs[p] == Publisher(i, Idle, i) && i + 1 < U64
    ensures p in x1.net.replicas && Nowhere(x1.net, ElementName(p, i))
    ensures x1.net.replicas[p].applying.Some? && SAMPLE_SET in x1.net.replicas[p].applying.value.todo
    ensures SAMPLE_SET in x1.net.replicas[p].applying.value.msg
  {
    var x := xs[t];
    InvariantHolds(xs, acts, t, false);
    FreshNowhere(x, p, i);
    x1 := CanBegin(x, p, m);
    ActKeeps(x, Exchange(Begin(p, m)), x1, false);
    NowhereStep(x, Exchange(Begin(p, m)), x1, p, i);
  }

  lemma AddAndInstall(x1: System, p: string, i: nat) returns (x3: System)
    requires Invariant(x1, false) && p in x1.pubs && |p| >= 6 && x1.pubs[p] == Publisher(i, Idle, i)
      && p in x1.net.replicas
    requires x1.net.replicas[p].applying.Some? && SAMPLE_SET in x1.net.replicas[p].applying.value.todo
    ensures Act(x1, TickAdd(p), AfterAdd(x1, p)) && Act(AfterAdd(x1, p), Exchange(Install(p, SAMPLE_SET)), x3)
    ensures ElementName(p, i) in ShownAt(AfterAdd(x1, p), p)
    ensures Invariant(x3, false) && p in x3.pubs && x3.pubs[p] == Publisher(i, Added, i + 1)
  {
    CanAdd(x1, p);
    x3 := InstallAfterAdd(x1, p, i);
    ActKeeps(AfterAdd(x1, p), Exchange(Install(p, SAMPLE_SET)), x3, false);
  }

  lemma InstallAfterAdd(x1: System, p: string, i: nat) returns (x3: System)
    requires Invariant(x1, false) && p in x1.pubs && |p| >= 6 && x1.pubs[p].counter == i && p in x1.net.replicas
    requires x1.net.replicas[p].applying.Some? && SAMPLE_SET in x1.net.replicas[p].applying.value.todo
    ensures Act(AfterAdd(x1, p), Exchange(Install(p, SAMPLE_SET)), x3)
    ensures p in x3.pubs && x3.pubs[p] == Publisher(i, Added, i + 1)
  {
    AddKeepsApplying(x1, p);
    x3 := CanInstall(AfterAdd(x1, p), p, SAMPLE_SET);
  }

  lemma AddedIsDropped(x1: System, x3: System, p: string, i: nat)
    requires Invariant(x1, false) && p in x1.pubs && |p| >= 6 && x1.pubs[p] == Publisher(i, Idle, i)
      && p in x1.net.replicas
    requires Act(AfterAdd(x1, p), Exchange(Install(p, SAMPLE_SET)), x3)
    requires x1.net.replicas[p].applying.Some? && SAMPLE_SET in x1.net.replicas[p].applying.value.msg
    requires Nowhere(x1.net, ElementName(p, i))
    ensures Nowhere(x3.net, ElementName(p, i))
  {
    GoodAfterAdd(x1, p);
    AddKeepsApplying(x1, p);
    NowhereAgain(x1.net, AfterAdd(x1, p).net, x3.net, p, i, Issued(AfterAdd(x1, p)));
  }

  lemma GoodAfterAdd(x: System, p: string)
    requires Invariant(x, false) && p in x.pubs && |p| >= 6 && x.pubs[p].phase.Idle? && p in x.net.replicas
    ensures var x' := AfterAdd(x, p);
            p in x'.net.replicas && GoodReplica(x'.net.replicas[p], TickedBy(Issued(x'), false))
  {
    CanAdd(x, p);
    GoodAt(AfterAdd(x, p), p);
  }

  /** Nothing but p's store has changed. */
  ghost predicate StoreChanged(n: Net, n': Net, p: string) {
    && p in n.replicas && p in n'.replicas && n'.replicas.Keys == n.replicas.Keys && n'.sent == n.sent
    && n'.replicas[p].applying == n.replicas[p].applying
    && forall q :: q in n.replicas && q != p ==> n'.replicas[q] == n.replicas[q]
  }

  lemma AddKeepsApplying(x: System, p: string)
    requires Invariant(x, false) && p in x.pubs && |p| >= 6 && p in x.net.replicas
    ensures StoreChanged(x.net, AfterAdd(x, p).net, p)
  {
    TickReady(x, p, false);
    TickAccepted(Issued(x), false, x.net.replicas[p].store, p, x.pubs[p].counter);
    LocalStore(x.net, p, AddOp(p, x.pubs[p].counter));
  }

  /** The install drops the element from the only place that had it. */
  lemma NowhereAgain(n1: Net, n2: Net, n3: Net, p: string, i: nat, issued: Clock)
    requires |p| >= 6 && StoreChanged(n1, n2, p) && Nowhere(n1, ElementName(p, i))
    requires GoodReplica(n2.replicas[p], TickedBy(issued, false)) && Next(n2, Install(p, SAMPLE_SET), n3)
    requires n1.replicas[p].applying.Some? && SAMPLE_SET in n1.replicas[p].applying.value.msg
    ensures Nowhere(n3, ElementName(p, i))
  {
    var e, a, r3 := ElementName(p, i), n1.replicas[p].applying.value, n3.replicas[p];
    InstallForgets(issued, a.snap, a.msg, n2.replicas[p].store, r3.store);
    assert GoodReplica(n1.replicas[p], Lacks(e));
    LacksElements(a.snap, e);
    LacksElements(a.msg, e);
    LacksElements(r3.store, e);
    forall q | q in n3.replicas ensures GoodReplica(n3.replicas[q], Lacks(e)) {
      if q != p { assert n3.replicas[q] == n1.replicas[q]; }
    }
  }

  /** Once the tick is counted, the element is gone for good. */
  lemma Count(x: System, p: string, i: nat) returns (x1: System, x2: System)
    requires Invariant(x, false) && p in x.pubs && |p| >= 6 && x.pubs[p] == Publisher(i, Added, i + 1) && i + 1 < U64
    requires Nowhere(x.net, ElementName(p, i))
    ensures Act(x, TickInc(p), x1) && Act(x1, Publish(p, false, true), x2) && !CanShow(x2, ElementName(p, i))
  {
    TickReady(x, p, false);
    CanIncrement(x, p);
    x1 := AfterIncrement(x, p);
    ActKeeps(x, TickInc(p), x1, false);
    NowhereStep(x, TickInc(p), x1, p, i);
    x2 := CanPublish(x1, p, true);
    ActKeeps(x1, Publish(p, false, true), x2, false);
    NeverShows(x2, p, i);
  }

  lemma NeverShows(x: System, p: string, i: nat)
    requires Invariant(x, false) && p in x.pubs && |p| >= 6
    requires Nowhere(x.net, ElementName(p, i)) && x.pubs[p].counter > i
    ensures !CanShow(x, ElementName(p, i))
  {
    forall acts, x' | Reaches(x, acts, x') ensures !SomeoneShows(x', ElementName(p, i)) {
      GoneForGood(x, acts, x', p, i);
    }
  }

  /** Such a state is reached as soon as another node has published for the first time. */
  lemma FirstMessage(x: System, p: string, q: string) returns (x1: System, x2: System, x3: System, m: Packet)
    requires Start(x) && p in x.pubs && q in x.pubs && p != q && |q| >= 6
    ensures Act(x, TickAdd(q), x1) && Act(x1, TickInc(q), x2) && Act(x2, Publish(q, true, true), x3)
    ensures CanRace(x3, p, m)
  {
    StartInvariant(x, false);
    CanAdd(x, q);
    x1 := AfterAdd(x, q);
    CanIncrement(x1, q);
    x2 := AfterIncrement(x1, q);
    OthersKept(x, q);
    TickReady(x1, q, false);
    TickIncElements(Issued(x1), x1.net.replicas[q].store, q, 0);
    ShownElements(x1, q);
    LocalStore(x1.net, q, IncOp(q, 0));
    m, x3 := CanSend(x2, q);
  }

  lemma OthersKept(x: System, q: string)
    requires Start(x) && q in x.pubs && |q| >= 6 && q in x.net.replicas && q in AfterAdd(x, q).net.replicas
    ensures var x2 := AfterIncrement(AfterAdd(x, q), q);
            forall p :: p in x.pubs && p != q ==> p in x2.pubs && x2.pubs[p] == x.pubs[p]
                                                  && p in x2.net.replicas && x2.net.replicas[p] == x.net.replicas[p]
  {
  }

  lemma CanSend(x: System, q: string) returns (m: Packet, x': System)
    requires q in x.pubs && x.pubs[q].phase.Ready? && x.pubs[q].counter + 1 < U64
    requires q in x.net.replicas && SAMPLE_SET in x.net.replicas[q].store
    ensures Act(x, Publish(q, true, true), x') && x'.net.replicas == x.net.replicas
    ensures forall p :: p in x.pubs && p != q ==> p in x'.pubs && x'.pubs[p] == x.pubs[p]
    ensures m in x'.net.sent && m.from == q && SAMPLE_SET in m.data
  {
    var r, pub := x.net.replicas[q], x.pubs[q];
    m := Packet(q, Export(r.store), r.known);
    x' := SetPublisher(x, x.net.(sent := x.net.sent + {m}), q, Publisher(pub.counter + 1, Idle, pub.issued));
  }
}
