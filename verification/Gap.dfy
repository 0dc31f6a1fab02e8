/** What the unlocked gap between snapshot and install costs a running node. */
module Gap {
  import opened Clocks
  import opened Crdts
  import opened Engines
  import opened LocalData
  import opened Network
  import opened Protocol

  /** The elements recorded in a store's sample set. */
  function Elements(st: StoreState): set<string> {
    if SAMPLE_SET in st && st[SAMPLE_SET].ASet? then st[SAMPLE_SET].s.adds.Keys else {}
  }

  /** Running nodes remove nothing, so all of them are visible. */
  lemma AllShown(issued: Clock, st: StoreState)
    requires AllGood(st, TickedBy(issued, false))
    ensures Shown(st, SAMPLE_SET) == Elements(st)
  {
    if SAMPLE_SET in st { assert Ticked(issued, false, SAMPLE_SET, st[SAMPLE_SET]); }
  }

  lemma ExportKeepsElements(st: StoreState)
    ensures Elements(Export(st)) == Elements(st)
  {
  }

  /** The states a node has at hand are all good. */
  lemma GoodAt(x: System, p: string)
    requires Invariant(x, false) && p in x.net.replicas
    ensures GoodReplica(x.net.replicas[p], TickedBy(Issued(x), false))
  {
  }

  // ---- One install ----

  /** A split apply leaves the elements that the snapshot or the message had. */
  lemma InstallForgets(issued: Clock, snap: StoreState, msg: StoreState, st: StoreState, st': StoreState)
    requires AllGood(snap, TickedBy(issued, false)) && AllGood(msg, TickedBy(issued, false)) && SAMPLE_SET in msg
    requires SyncOf(snap, map k | k in msg && k == SAMPLE_SET :: msg[k], st, st')
    ensures Elements(st') == Elements(snap) + Elements(msg)
  {
    var one := map k | k in msg && k == SAMPLE_SET :: msg[k];
    assert Synced(snap, one, st, st', SAMPLE_SET);
    assert Ticked(issued, false, SAMPLE_SET, msg[SAMPLE_SET]);
    assert SAMPLE_SET in snap ==> Ticked(issued, false, SAMPLE_SET, snap[SAMPLE_SET]);
  }

  lemma OtherInstall(snap: StoreState, msg: StoreState, key: string, st: StoreState, st': StoreState)
    requires SyncOf(snap, map k | k in msg && k == key :: msg[k], st, st') && key != SAMPLE_SET
    ensures Elements(st') == Elements(st)
  {
    assert Synced(snap, map k | k in msg && k == key :: msg[k], st, st', SAMPLE_SET);
  }

  // ---- From snapshot to install ----

  /** The node is applying data on top of the snapshot. */
  ghost predicate Underway(r: Replica, snap: StoreState, data: StoreState) {
    && r.applying.Some? && r.applying.value.snap == snap && r.applying.value.msg == data
    && r.applying.value.todo <= data.Keys
  }

  /** What p adds in one step. */
  function AddedBy(x: System, a: Action, p: string): set<string>
    requires |p| >= 6
  {
    if a == TickAdd(p) && p in x.pubs then {ElementName(p, x.pubs[p].counter)} else {}
  }

  /** What p adds from state t to state u. */
  function AddedBetween(xs: seq<System>, acts: seq<Action>, p: string, t: nat, u: nat): set<string>
    requires t <= u <= |acts| <= |xs| && |p| >= 6
  {
    if t == u then {} else AddedBetween(xs, acts, p, t, u - 1) + AddedBy(xs[u - 1], acts[u - 1], p)
  }

  lemma AddedNext(xs: seq<System>, acts: seq<Action>, p: string, t: nat, u: nat, next: nat)
    requires t <= u < |acts| <= |xs| && next == u + 1 && |p| >= 6
    ensures AddedBetween(xs, acts, p, t, next) == AddedBetween(xs, acts, p, t, u) + AddedBy(xs[u], acts[u], p)
  {
  }

  lemma TickAddElements(issued: Clock, st: StoreState, p: string, i: nat)
    requires AllGood(st, TickedBy(issued, false)) && 6 <= |p| <= 256 && !Blank(p) && i < U64
    ensures Refusal(st, AddOp(p, i)).None?
    ensures Elements(Submit(st, AddOp(p, i))) == Elements(st) + {ElementName(p, i)}
  {
    TickAccepted(issued, false, st, p, i);
    assert SAMPLE_SET in st ==> Ticked(issued, false, SAMPLE_SET, st[SAMPLE_SET]);
  }

  lemma TickIncElements(issued: Clock, st: StoreState, p: string, i: nat)
    requires AllGood(st, TickedBy(issued, false)) && 6 <= |p| <= 256 && !Blank(p) && i < U64
    ensures Refusal(st, IncOp(p, i)).None?
    ensures Elements(Submit(st, IncOp(p, i))) == Elements(st)
  {
    TickAccepted(issued, false, st, p, i);
    TickValidates(p, i);
    assert CounterKey(p) in st ==> Ticked(issued, false, CounterKey(p), st[CounterKey(p)]);
  }

  /** p's set grows by what p adds, until it is installed. */
  ghost predicate Proceeds(r: Replica, r': Replica, snap: StoreState, data: StoreState, added: set<string>)
    requires Underway(r, snap, data)
  {
    && Underway(r', snap, data) && r'.applying.value.todo <= r.applying.value.todo
    && (SAMPLE_SET in r'.applying.value.todo ==> Elements(r'.store) == Elements(r.store) + added)
  }

  lemma GapAdd(x: System, x': System, p: string, snap: StoreState, data: StoreState)
    requires Invariant(x, false) && Act(x, TickAdd(p), x') && |p| >= 6
    requires p in x.net.replicas && Underway(x.net.replicas[p], snap, data)
    ensures p in x'.net.replicas
      && Proceeds(x.net.replicas[p], x'.net.replicas[p], snap, data, AddedBy(x, TickAdd(p), p))
  {
    TickReady(x, p, false);
    TickAddElements(Issued(x), x.net.replicas[p].store, p, x.pubs[p].counter);
    AcceptedAdd(x, p, x');
    LocalStore(x.net, p, AddOp(p, x.pubs[p].counter));
  }

  lemma GapIncrement(x: System, x': System, p: string, snap: StoreState, data: StoreState)
    requires Invariant(x, false) && Act(x, TickInc(p), x') && |p| >= 6
    requires p in x.net.replicas && Underway(x.net.replicas[p], snap, data)
    ensures p in x'.net.replicas && Proceeds(x.net.replicas[p], x'.net.replicas[p], snap, data, {})
  {
    TickReady(x, p, false);
    TickIncElements(Issued(x), x.net.replicas[p].store, p, x.pubs[p].counter);
    LocalStore(x.net, p, IncOp(p, x.pubs[p].counter));
  }

  lemma GapExchange(n: Net, s: Step, n': Net, p: string, snap: StoreState, data: StoreState)
    requires Next(n, s, n') && !s.Local? && !s.Prune? && s != Finish(p)
    requires p in n.replicas && Underway(n.replicas[p], snap, data)
    ensures p in n'.replicas && Proceeds(n.replicas[p], n'.replicas[p], snap, data, {})
  {
    if s.Install? && s.p == p && s.key != SAMPLE_SET {
      OtherInstall(snap, data, s.key, n.replicas[p].store, n'.replicas[p].store);
    }
  }

  /** Whatever another node's tick or anyone's publishing does, p's replica stays as it is. */
  lemma ElsewhereKeeps(x: System, a: Action, x': System, p: string)
    requires Act(x, a, x') && p in x.net.replicas
    requires a.Publish? || ((a.TickAdd? || a.TickInc?) && a.p != p)
    ensures p in x'.net.replicas && x'.net.replicas[p] == x.net.replicas[p]
  {
  }

  lemma GapStep(x: System, a: Action, x': System, p: string, snap: StoreState, data: StoreState)
    requires Invariant(x, false) && Act(x, a, x') && a != Exchange(Finish(p)) && |p| >= 6
    requires p in x.net.replicas && Underway(x.net.replicas[p], snap, data)
    ensures p in x'.net.replicas && Proceeds(x.net.replicas[p], x'.net.replicas[p], snap, data, AddedBy(x, a, p))
  {
    if a == TickAdd(p) {
      GapAdd(x, x', p, snap, data);
    } else if a == TickInc(p) {
      GapIncrement(x, x', p, snap, data);
    } else if a.Exchange? {
      GapExchange(x.net, a.s, x'.net, p, snap, data);
    } else {
      ElsewhereKeeps(x, a, x', p);
    }
  }

  /** From the snapshot at t to u: p holds what the snapshot held and what it added since. */
  ghost predicate Since(xs: seq<System>, acts: seq<Action>, t: nat, u: nat, p: string, m: Packet)
    requires t < u <= |acts| < |xs| && |p| >= 6
  {
    && p in xs[t].net.replicas && m in xs[t].net.sent && p in xs[u].net.replicas
    && var r, st := xs[u].net.replicas[p], xs[t].net.replicas[p].store;
       && Underway(r, Export(st), m.data)
       && (SAMPLE_SET in r.applying.value.todo
           ==> Elements(r.store) == Elements(st) + AddedBetween(xs, acts, p, t + 1, u))
  }

  lemma {:induction false} GapContents(xs: seq<System>, acts: seq<Action>, t: nat, u: nat, p: string, m: Packet)
    requires IsHistory(xs, acts) && t < u < |xs| && |p| >= 6 && acts[t] == Exchange(Begin(p, m))
    requires forall j :: t < j < u ==> acts[j] != Exchange(Finish(p))
    ensures Since(xs, acts, t, u, p, m)
  {
    if u == t + 1 {
      GapBegins(xs, acts, t, u, p, m);
    } else {
      var before := u - 1;
      GapContents(xs, acts, t, before, p, m);
      GapNext(xs, acts, t, before, u, p, m);
    }
  }

  lemma GapBegins(xs: seq<System>, acts: seq<Action>, t: nat, next: nat, p: string, m: Packet)
    requires IsHistory(xs, acts) && t < |acts| && next == t + 1 && |p| >= 6 && acts[t] == Exchange(Begin(p, m))
    ensures Since(xs, acts, t, next, p, m)
  {
    assert ActAt(xs, acts, t);
  }

  lemma GapNext(xs: seq<System>, acts: seq<Action>, t: nat, u: nat, next: nat, p: string, m: Packet)
    requires IsHistory(xs, acts) && t < u < |acts| && next == u + 1 && |p| >= 6
    requires Since(xs, acts, t, u, p, m) && acts[u] != Exchange(Finish(p))
    ensures Since(xs, acts, t, next, p, m)
  {
    var first, st := t + 1, xs[t].net.replicas[p].store;
    GapProceeds(xs, acts, u, next, p, Export(st), m.data);
    AddedNext(xs, acts, p, first, u, next);
    Associates(Elements(st), AddedBetween(xs, acts, p, first, u), AddedBy(xs[u], acts[u], p));
  }

  lemma GapProceeds(xs: seq<System>, acts: seq<Action>, u: nat, next: nat, p: string, snap: StoreState,
                    data: StoreState)
    requires IsHistory(xs, acts) && u < |acts| && next == u + 1 && |p| >= 6 && acts[u] != Exchange(Finish(p))
    requires p in xs[u].net.replicas && Underway(xs[u].net.replicas[p], snap, data)
    ensures p in xs[next].net.replicas
    ensures Proceeds(xs[u].net.replicas[p], xs[next].net.replicas[p], snap, data, AddedBy(xs[u], acts[u], p))
  {
    InvariantHolds(xs, acts, u, false);
    assert ActAt(xs, acts, u);
    GapStep(xs[u], acts[u], xs[next], p, snap, data);
  }

  lemma Associates(a: set<string>, b: set<string>, c: set<string>)
    ensures a + b + c == a + (b + c)
  {
  }

  /** p has installed the merged object under the key at v, for the message it began to apply at t. */
  ghost predicate InstalledAt(xs: seq<System>, acts: seq<Action>, t: nat, v: nat, p: string, m: Packet, key: string) {
    && IsHistory(xs, acts) && t < v < |acts| && |p| >= 6
    && acts[t] == Exchange(Begin(p, m)) && acts[v] == Exchange(Install(p, key))
    && forall j :: t < j < v ==> acts[j] != Exchange(Finish(p))
  }

  /** What a reader of node p's sample set sees. */
  function ShownAt(x: System, p: string): set<string> {
    if p in x.net.replicas then Shown(x.net.replicas[p].store, SAMPLE_SET) else {}
  }

  /** Whatever happens between snapshot and install, at this node or elsewhere: the elements lost by the
      install are exactly those p added in between that neither the snapshot nor the message has. */
  lemma LostExactly(xs: seq<System>, acts: seq<Action>, t: nat, v: nat, p: string, m: Packet)
    requires InstalledAt(xs, acts, t, v, p, m, SAMPLE_SET)
    ensures var was, msg := ShownAt(xs[t], p), Shown(m.data, SAMPLE_SET);
            && ShownAt(xs[v + 1], p) == was + msg
            && ShownAt(xs[v], p) - ShownAt(xs[v + 1], p) == AddedBetween(xs, acts, p, t + 1, v) - was - msg
  {
    GapContents(xs, acts, t, v, p, m);
    InvariantHolds(xs, acts, t, false);
    InvariantHolds(xs, acts, v, false);
    InvariantHolds(xs, acts, v + 1, false);
    assert ActAt(xs, acts, v);
    GoodAt(xs[v], p);
    GoodAt(xs[v + 1], p);
    GoodAt(xs[t], p);
    var before, after, st := xs[v].net.replicas[p], xs[v + 1].net.replicas[p], xs[t].net.replicas[p].store;
    InstallForgets(Issued(xs[v]), Export(st), m.data, before.store, after.store);
    AllShown(Issued(xs[v]), before.store);
    AllShown(Issued(xs[v]), m.data);
    AllShown(Issued(xs[v + 1]), after.store);
    AllShown(Issued(xs[t]), st);
    ExportKeepsElements(st);
  }

  // ---- Fresh elements ----

  /** An element its writer has not issued yet is nowhere. */
  lemma NotYetWritten(pubs: map<string, Publisher>, issued: Clock, st: StoreState, p: string, i: nat)
    requires ValidNodes(pubs) && issued.Keys <= pubs.Keys && AllGood(st, TickedBy(issued, false))
    requires p in pubs && |p| >= 6 && Entry(issued, p) <= i
    ensures ElementName(p, i) !in Elements(st)
  {
    var e := ElementName(p, i);
    if e in Elements(st) {
      assert Ticked(issued, false, SAMPLE_SET, st[SAMPLE_SET]);
      var q, j :| Wrote(issued, q, j, e, st[SAMPLE_SET].s.adds[e]);
      ElementNameInjective(p, i, q, j);
    }
  }

  /** A publisher stays one, and neither its counter nor what it has issued decreases. */
  ghost predicate Grown(x: System, x': System, p: string) {
    p in x.pubs && p in x'.pubs && x.pubs[p].issued <= x'.pubs[p].issued && x.pubs[p].counter <= x'.pubs[p].counter
  }

  lemma IssuedBound(x: System, p: string)
    requires Invariant(x, false) && p in x.pubs
    ensures x.pubs[p].counter <= x.pubs[p].issued <= x.pubs[p].counter + 1
  {
  }

  lemma ActGrows(x: System, a: Action, x': System, p: string)
    requires Act(x, a, x') && p in x'.pubs && (p in x.pubs ==> x.pubs[p].issued <= x.pubs[p].counter + 1)
    ensures Grown(x, x', p)
  {
  }

  lemma HistoryGrows(xs: seq<System>, acts: seq<Action>, i: nat, next: nat, p: string)
    requires IsHistory(xs, acts) && i < |acts| && next == i + 1 && p in xs[next].pubs
    ensures Grown(xs[i], xs[next], p)
  {
    assert ActAt(xs, acts, i);
    if p in xs[i].pubs {
      InvariantHolds(xs, acts, i, false);
      IssuedBound(xs[i], p);
    }
    ActGrows(xs[i], acts[i], xs[next], p);
  }

  lemma {:induction false} CountersGrow(xs: seq<System>, acts: seq<Action>, t: nat, u: nat, p: string)
    requires IsHistory(xs, acts) && t <= u < |xs| && p in xs[u].pubs
    ensures Grown(xs[t], xs[u], p)
  {
    if t < u {
      var before := u - 1;
      HistoryGrows(xs, acts, before, u, p);
      CountersGrow(xs, acts, t, before, p);
    }
  }

  lemma {:induction false} AddedIncludes(xs: seq<System>, acts: seq<Action>, p: string, t: nat, u: nat, j: nat)
    requires t <= j < u <= |acts| <= |xs| && |p| >= 6 && acts[j] == TickAdd(p) && p in xs[j].pubs
    ensures ElementName(p, xs[j].pubs[p].counter) in AddedBetween(xs, acts, p, t, u)
  {
    if j < u - 1 { AddedIncludes(xs, acts, p, t, u - 1, j); }
  }

  /** Every new element that a node adds at u, between snapshot and install, is visible until the install
      and then lost, in every history, whatever the message and whatever else happens in between. */
  lemma TickInTheGapIsLost(xs: seq<System>, acts: seq<Action>, t: nat, u: nat, v: nat, p: string, m: Packet)
    requires InstalledAt(xs, acts, t, v, p, m, SAMPLE_SET) && t < u < v && acts[u] == TickAdd(p)
    requires p in xs[u].pubs && xs[u].pubs[p].issued == xs[u].pubs[p].counter
    ensures var e := ElementName(p, xs[u].pubs[p].counter); e in ShownAt(xs[v], p) && e !in ShownAt(xs[v + 1], p)
  {
    CountersGrow(xs, acts, t, u, p);
    NotBefore(xs, acts, t, p, m, xs[u].pubs[p].counter);
    AddedIncludes(xs, acts, p, t + 1, v, u);
    LostElement(xs, acts, t, v, p, m, ElementName(p, xs[u].pubs[p].counter));
  }

  lemma LostElement(xs: seq<System>, acts: seq<Action>, t: nat, v: nat, p: string, m: Packet, e: string)
    requires InstalledAt(xs, acts, t, v, p, m, SAMPLE_SET) && e in AddedBetween(xs, acts, p, t + 1, v)
    requires e !in ShownAt(xs[t], p) && e !in Shown(m.data, SAMPLE_SET)
    ensures e in ShownAt(xs[v], p) && e !in ShownAt(xs[v + 1], p)
  {
    LostExactly(xs, acts, t, v, p, m);
    Lost(ShownAt(xs[v], p), ShownAt(xs[v + 1], p), AddedBetween(xs, acts, p, t + 1, v),
         ShownAt(xs[t], p), Shown(m.data, SAMPLE_SET), e);
  }

  lemma Lost(before: set<string>, after: set<string>, added: set<string>, was: set<string>, msg: set<string>, e: string)
    requires before - after == added - was - msg && e in added && e !in was && e !in msg
    ensures e in before && e !in after
  {
    assert e in before - after;
  }

  lemma NotBefore(xs: seq<System>, acts: seq<Action>, t: nat, p: string, m: Packet, i: nat)
    requires IsHistory(xs, acts) && t < |acts| && acts[t] == Exchange(Begin(p, m)) && |p| >= 6
    requires p in xs[t].pubs && xs[t].pubs[p].issued <= i
    ensures ElementName(p, i) !in ShownAt(xs[t], p) && ElementName(p, i) !in Shown(m.data, SAMPLE_SET)
  {
    var x := xs[t];
    assert ActAt(xs, acts, t);
    InvariantHolds(xs, acts, t, false);
    GoodAt(x, p);
    NotYetWritten(x.pubs, Issued(x), x.net.replicas[p].store, p, i);
    NotYetWritten(x.pubs, Issued(x), m.data, p, i);
  }
}
