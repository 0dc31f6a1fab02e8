/** Merging as a join: when replicas that saw the same states end up equal, in any
    order and with any repetition, and exactly when two sets merge alike both ways. */
module Convergence {
  import opened Clocks
  import opened Crdts

  // ---- Two sets ----

  /** Every element clock the two sides share is order independent. */
  ghost predicate NoOpenConflict(a: ClockMap, b: ClockMap) {
    forall e :: e in a && e in b ==> OrderIndependent(a[e], b[e])
  }

  ghost predicate MergesAlike(a: ClockMap, b: ClockMap) {
    forall r, t :: ClockMapMerge(a, b, r) && ClockMapMerge(b, a, t) ==> r == t
  }

  lemma MapMergeCommutesIff(a: ClockMap, b: ClockMap)
    ensures MergesAlike(a, b) <==> NoOpenConflict(a, b)
  {
    if MergesAlike(a, b) {
      forall e | e in a && e in b ensures OrderIndependent(a[e], b[e]) {
        forall x, y | Resolves(a[e], b[e], x) && Resolves(b[e], a[e], y) ensures x == y {
          AlikeAt(a, b, e, x, y);
        }
      }
    }
    if NoOpenConflict(a, b) {
      forall r, t | ClockMapMerge(a, b, r) && ClockMapMerge(b, a, t) ensures r == t {
        ClockMapsAgree(a, b, r, t);
      }
    }
  }

  lemma AlikeAt(a: ClockMap, b: ClockMap, e: string, x: Clock, y: Clock)
    requires MergesAlike(a, b) && e in a && e in b && Resolves(a[e], b[e], x) && Resolves(b[e], a[e], y)
    ensures x == y
  {
    var r, t := SomeMerge(a, b)[e := x], SomeMerge(b, a)[e := y];
    assert ClockMapMerge(a, b, r) && ClockMapMerge(b, a, t);
    assert r[e] == x && t[e] == y;
  }

  ghost predicate SetsMergeAlike(s: SetState, o: SetState) {
    forall r, t :: MergeOf(ASet(s), ASet(o), r) && MergeOf(ASet(o), ASet(s), t) ==> r == t
  }

  /** Merging two sets of one key gives one result, whichever is the receiver and whatever the
      map iteration order, exactly when every element clock they share is order independent. */
  lemma SetMergeCommutesIff(s: SetState, o: SetState)
    requires s.key == o.key
    ensures SetsMergeAlike(s, o) <==> NoOpenConflict(s.adds, o.adds) && NoOpenConflict(s.removes, o.removes)
  {
    MapMergeCommutesIff(s.adds, o.adds);
    MapMergeCommutesIff(s.removes, o.removes);
    if SetsMergeAlike(s, o) { AlikeInParts(s, o); }
    if MergesAlike(s.adds, o.adds) && MergesAlike(s.removes, o.removes) {
      forall r, t | MergeOf(ASet(s), ASet(o), r) && MergeOf(ASet(o), ASet(s), t) ensures r == t {
        PartsDecide(s, o, r, t);
      }
    }
  }

  lemma AlikeInParts(s: SetState, o: SetState)
    requires s.key == o.key && SetsMergeAlike(s, o)
    ensures MergesAlike(s.adds, o.adds) && MergesAlike(s.removes, o.removes)
  {
    var d, d' := SomeMerge(s.removes, o.removes), SomeMerge(o.removes, s.removes);
    forall a, a' | ClockMapMerge(s.adds, o.adds, a) && ClockMapMerge(o.adds, s.adds, a') ensures a == a' {
      AlikeForces(s, o, a, a', d, d');
    }
    var a, a' := SomeMerge(s.adds, o.adds), SomeMerge(o.adds, s.adds);
    forall d, d' | ClockMapMerge(s.removes, o.removes, d) && ClockMapMerge(o.removes, s.removes, d') ensures d == d' {
      AlikeForces(s, o, a, a', d, d');
    }
  }

  lemma AlikeForces(s: SetState, o: SetState, a: ClockMap, a': ClockMap, d: ClockMap, d': ClockMap)
    requires s.key == o.key && SetsMergeAlike(s, o)
    requires ClockMapMerge(s.adds, o.adds, a) && ClockMapMerge(o.adds, s.adds, a')
    requires ClockMapMerge(s.removes, o.removes, d) && ClockMapMerge(o.removes, s.removes, d')
    ensures a == a' && d == d'
  {
    PartsMerge(s, o, a, d);
    PartsMerge(o, s, a', d');
  }

  lemma PartsDecide(s: SetState, o: SetState, r: ObjectState, t: ObjectState)
    requires MergesAlike(s.adds, o.adds) && MergesAlike(s.removes, o.removes)
    requires MergeOf(ASet(s), ASet(o), r) && MergeOf(ASet(o), ASet(s), t)
    ensures r == t
  {
  }

  ghost function SomeMerge(a: ClockMap, b: ClockMap): (r: ClockMap)
    ensures ClockMapMerge(a, b, r)
  {
    map e | e in a.Keys + b.Keys ::
      if e !in b then a[e] else if e !in a then b[e]
        else (ResolvesExist(a[e], b[e]); var c :| Resolves(a[e], b[e], c); c)
  }

  lemma ResolvesExist(a: Clock, b: Clock)
    ensures exists c :: Resolves(a, b, c)
  {
    var c := ResolvesTotal(a, b);
  }

  lemma ClockMapsAgree(a: ClockMap, b: ClockMap, r: ClockMap, t: ClockMap)
    requires NoOpenConflict(a, b)
    requires ClockMapMerge(a, b, r) && ClockMapMerge(b, a, t)
    ensures r == t
  {
  }

  /** Merging objects of one kind and key always has some outcome, ... */
  ghost function SomeMerged(a: ObjectState, b: ObjectState): (r: ObjectState)
    requires Mergeable(a, b)
    ensures MergeOf(a, b, r)
  {
    if a.ASet? then
      var adds, removes := SomeMerge(a.s.adds, b.s.adds), SomeMerge(a.s.removes, b.s.removes);
      ASet(SetState(a.s.key, adds, removes, Lub(a.s.timestamp, b.s.timestamp)))
    else
      ACounter(CounterState(a.c.key, Lub(a.c.counters, b.c.counters), Lub(a.c.timestamp, b.c.timestamp)))
  }

  /** ... and so has applying a message. */
  ghost function SomeStore(snap: StoreState, msg: StoreState, st: StoreState): (r: StoreState)
    ensures SyncOf(snap, msg, st, r)
  {
    var installed := set k | k in msg && (k in snap ==> Mergeable(snap[k], msg[k]));
    map k | k in st.Keys + installed ::
      if k !in installed then st[k] else if k in snap then SomeMerged(snap[k], msg[k]) else msg[k]
  }

  // ---- The order on stores ----

  /** The clocks that may occur for an element: by key, adds or removes, and element. */
  type Family = (string, bool, string) -> iset<Clock>

  ghost predicate LinearFamily(fam: Family, sets: iset<string>) {
    forall k, adds, e :: k in sets ==> Linear(fam(k, adds, e))
  }

  ghost predicate MapFits(fam: Family, k: string, adds: bool, m: ClockMap) {
    forall e :: e in m ==> m[e] in fam(k, adds, e)
  }

  /** The object is of the kind its key has everywhere, carries that key, and its element
      clocks come from the family. */
  ghost predicate Fits(fam: Family, sets: iset<string>, k: string, o: ObjectState) {
    && o.Key() == k
    && (o.ASet? <==> k in sets)
    && (o.ASet? ==> MapFits(fam, k, true, o.s.adds) && MapFits(fam, k, false, o.s.removes))
  }

  ghost predicate StoreFits(fam: Family, sets: iset<string>, st: StoreState) {
    forall k :: k in st ==> Fits(fam, sets, k, st[k])
  }

  ghost predicate Below(a: Clock, b: Clock) {
    a == b || Beats(b, a)
  }

  ghost predicate MapBelow(a: ClockMap, b: ClockMap) {
    forall e :: e in a ==> e in b && Below(a[e], b[e])
  }

  /** b holds everything a holds, at least as recent. */
  ghost predicate ObjectBelow(a: ObjectState, b: ObjectState) {
    match (a, b)
    case (ASet(s), ASet(t)) =>
      s.key == t.key && MapBelow(s.adds, t.adds) && MapBelow(s.removes, t.removes) && Leq(s.timestamp, t.timestamp)
    case (ACounter(c), ACounter(d)) =>
      c.key == d.key && Leq(c.counters, d.counters) && Leq(c.timestamp, d.timestamp)
    case _ => false
  }

  ghost predicate StoreBelow(a: StoreState, b: StoreState) {
    forall k :: k in a ==> k in b && ObjectBelow(a[k], b[k])
  }

  lemma MapBelowAntisymmetric(a: ClockMap, b: ClockMap)
    requires MapBelow(a, b) && MapBelow(b, a)
    ensures a == b
  {
    assert a.Keys == b.Keys;
    forall e | e in a ensures a[e] == b[e] {
      if Beats(b[e], a[e]) { BeatsAsymmetric(b[e], a[e]); }
    }
  }

  lemma StoreBelowTransitive(fam: Family, sets: iset<string>, a: StoreState, b: StoreState, c: StoreState)
    requires LinearFamily(fam, sets) && StoreFits(fam, sets, a) && StoreFits(fam, sets, b) && StoreFits(fam, sets, c)
    requires StoreBelow(a, b) && StoreBelow(b, c)
    ensures StoreBelow(a, c)
  {
  }

  lemma StoreBelowAntisymmetric(a: StoreState, b: StoreState)
    requires StoreBelow(a, b) && StoreBelow(b, a)
    ensures a == b
  {
    assert a.Keys == b.Keys;
    forall k | k in a ensures a[k] == b[k] {
      if a[k].ASet? {
        MapBelowAntisymmetric(a[k].s.adds, b[k].s.adds);
        MapBelowAntisymmetric(a[k].s.removes, b[k].s.removes);
        LeqAntisymmetric(a[k].s.timestamp, b[k].s.timestamp);
      } else {
        LeqAntisymmetric(a[k].c.counters, b[k].c.counters);
        LeqAntisymmetric(a[k].c.timestamp, b[k].c.timestamp);
      }
    }
  }

  lemma StoreBelowReflexive(a: StoreState)
    ensures StoreBelow(a, a)
  {
  }

  // ---- Applying a state is the join ----

  /** r is the least store above both a and b. */
  ghost predicate IsJoin(fam: Family, sets: iset<string>, a: StoreState, b: StoreState, r: StoreState) {
    && StoreFits(fam, sets, r) && StoreBelow(a, r) && StoreBelow(b, r)
    && forall u :: StoreFits(fam, sets, u) && StoreBelow(a, u) && StoreBelow(b, u) ==> StoreBelow(r, u)
  }

  lemma MapMergeIsJoin(fam: Family, sets: iset<string>, k: string, adds: bool, a: ClockMap, b: ClockMap, r: ClockMap)
    requires LinearFamily(fam, sets) && k in sets
    requires MapFits(fam, k, adds, a) && MapFits(fam, k, adds, b)
    requires ClockMapMerge(a, b, r)
    ensures MapFits(fam, k, adds, r) && MapBelow(a, r) && MapBelow(b, r)
    ensures forall u :: MapBelow(a, u) && MapBelow(b, u) ==> MapBelow(r, u)
  {
    forall e | e in r
      ensures r[e] in fam(k, adds, e)
      ensures e in a ==> Below(a[e], r[e])
      ensures e in b ==> Below(b[e], r[e])
      ensures (e in a && r[e] == a[e]) || (e in b && r[e] == b[e])
    {
      assert ElementMerge(a, b, e, r[e]) && Linear(fam(k, adds, e));
      if e in a && e in b {
        SettledOnce(a[e], b[e], r[e]);
      }
    }
  }

  lemma MergeIsJoin(fam: Family, sets: iset<string>, k: string, a: ObjectState, b: ObjectState, r: ObjectState)
    requires LinearFamily(fam, sets) && Fits(fam, sets, k, a) && Fits(fam, sets, k, b)
    requires MergeOf(a, b, r)
    ensures Fits(fam, sets, k, r) && ObjectBelow(a, r) && ObjectBelow(b, r)
    ensures forall u :: ObjectBelow(a, u) && ObjectBelow(b, u) ==> ObjectBelow(r, u)
  {
    if a.ASet? {
      MapMergeIsJoin(fam, sets, k, true, a.s.adds, b.s.adds, r.s.adds);
      MapMergeIsJoin(fam, sets, k, false, a.s.removes, b.s.removes, r.s.removes);
      forall u | ObjectBelow(a, u) && ObjectBelow(b, u) ensures ObjectBelow(r, u) {
        LubIsLeast(a.s.timestamp, b.s.timestamp, u.s.timestamp);
      }
      LubIsLeast(a.s.timestamp, b.s.timestamp, r.s.timestamp);
    } else {
      forall u | ObjectBelow(a, u) && ObjectBelow(b, u) ensures ObjectBelow(r, u) {
        LubIsLeast(a.c.counters, b.c.counters, u.c.counters);
        LubIsLeast(a.c.timestamp, b.c.timestamp, u.c.timestamp);
      }
      LubIsLeast(a.c.counters, b.c.counters, r.c.counters);
      LubIsLeast(a.c.timestamp, b.c.timestamp, r.c.timestamp);
    }
  }

  /** A snapshot of a store whose objects carry their keys is the store itself. */
  lemma ExportOfFitting(fam: Family, sets: iset<string>, st: StoreState)
    requires StoreFits(fam, sets, st)
    ensures Export(st) == st
  {
  }

  /** Applying a received state leaves the join of the replica's state and the message. */
  lemma SyncIsJoin(fam: Family, sets: iset<string>, st: StoreState, msg: StoreState, st': StoreState)
    requires LinearFamily(fam, sets) && StoreFits(fam, sets, st) && StoreFits(fam, sets, msg)
    requires SyncOf(Export(st), msg, st, st')
    ensures IsJoin(fam, sets, st, msg, st')
  {
    ExportOfFitting(fam, sets, st);
    forall k ensures Synced(st, msg, st, st', k) {}
    forall k | k in st'
      ensures Fits(fam, sets, k, st'[k])
      ensures k in st ==> ObjectBelow(st[k], st'[k])
      ensures k in msg ==> ObjectBelow(msg[k], st'[k])
      ensures forall u :: (k in st ==> ObjectBelow(st[k], u)) && (k in msg ==> ObjectBelow(msg[k], u))
                ==> ObjectBelow(st'[k], u)
    {
      SyncIsJoinAt(fam, sets, st, msg, st', k);
    }
    forall k | k in msg || k in st ensures k in st' {
      assert Synced(st, msg, st, st', k);
      if k in st && k in msg { assert Fits(fam, sets, k, st[k]) && Fits(fam, sets, k, msg[k]); }
    }
    forall u | StoreFits(fam, sets, u) && StoreBelow(st, u) && StoreBelow(msg, u) ensures StoreBelow(st', u) {
      forall k | k in st' ensures k in u && ObjectBelow(st'[k], u[k]) {
        assert Synced(st, msg, st, st', k);
      }
    }
  }

  lemma SyncIsJoinAt(fam: Family, sets: iset<string>, st: StoreState, msg: StoreState, st': StoreState, k: string)
    requires LinearFamily(fam, sets) && StoreFits(fam, sets, st) && StoreFits(fam, sets, msg)
    requires Synced(st, msg, st, st', k) && k in st'
    ensures Fits(fam, sets, k, st'[k])
    ensures k in st ==> ObjectBelow(st[k], st'[k])
    ensures k in msg ==> ObjectBelow(msg[k], st'[k])
    ensures forall u :: (k in st ==> ObjectBelow(st[k], u)) && (k in msg ==> ObjectBelow(msg[k], u))
              ==> ObjectBelow(st'[k], u)
  {
    if k in msg && k in st {
      assert Fits(fam, sets, k, st[k]) && Fits(fam, sets, k, msg[k]);
      MergeIsJoin(fam, sets, k, st[k], msg[k], st'[k]);
    } else if k in msg {
      assert Fits(fam, sets, k, msg[k]);
    } else {
      assert Fits(fam, sets, k, st[k]);
    }
  }

  // ---- Strong eventual consistency ----

  /** A replica that starts at sts[0] and applies the messages one after the other. */
  ghost predicate Receives(msgs: seq<StoreState>, sts: seq<StoreState>) {
    && |sts| == |msgs| + 1
    && forall i :: 0 <= i < |msgs| ==> SyncOf(Export(sts[i]), msgs[i], sts[i], sts[i + 1])
  }

  /** The last state is the join of the first and of every message. */
  lemma {:induction false} ReceivesJoin(fam: Family, sets: iset<string>, msgs: seq<StoreState>, sts: seq<StoreState>,
                                        n: nat)
    requires LinearFamily(fam, sets) && Receives(msgs, sts) && n <= |msgs|
    requires StoreFits(fam, sets, sts[0]) && forall m :: m in msgs ==> StoreFits(fam, sets, m)
    ensures StoreFits(fam, sets, sts[n]) && StoreBelow(sts[0], sts[n])
    ensures forall i :: 0 <= i < n ==> StoreBelow(msgs[i], sts[n])
    ensures forall u ::
      StoreFits(fam, sets, u) && StoreBelow(sts[0], u) && (forall i :: 0 <= i < n ==> StoreBelow(msgs[i], u))
      ==> StoreBelow(sts[n], u)
  {
    if n == 0 {
      StoreBelowReflexive(sts[0]);
    } else {
      ReceivesJoin(fam, sets, msgs, sts, n - 1);
      SyncIsJoin(fam, sets, sts[n - 1], msgs[n - 1], sts[n]);
      StoreBelowTransitive(fam, sets, sts[0], sts[n - 1], sts[n]);
      forall i | 0 <= i < n - 1 ensures StoreBelow(msgs[i], sts[n]) {
        StoreBelowTransitive(fam, sets, msgs[i], sts[n - 1], sts[n]);
      }
    }
  }

  /** A replica starts in a fitting state and receives fitting messages. */
  ghost predicate Delivered(fam: Family, sets: iset<string>, msgs: seq<StoreState>, sts: seq<StoreState>) {
    Receives(msgs, sts) && StoreFits(fam, sets, sts[0]) && forall m :: m in msgs ==> StoreFits(fam, sets, m)
  }

  /** Taken together, initial state and messages are the same states. */
  ghost predicate SameStates(msgs: seq<StoreState>, sts: seq<StoreState>, msgs': seq<StoreState>, sts': seq<StoreState>)
    requires Receives(msgs, sts) && Receives(msgs', sts')
  {
    forall m :: m == sts[0] || m in msgs <==> m == sts'[0] || m in msgs'
  }

  /** Replicas that were given the same states end up equal, whatever the order, repetition
      and map iteration order. */
  ghost predicate Converges(fam: Family, sets: iset<string>) {
    forall msgs, sts, msgs', sts' ::
      Delivered(fam, sets, msgs, sts) && Delivered(fam, sets, msgs', sts') && SameStates(msgs, sts, msgs', sts')
      ==> sts[|msgs|] == sts'[|msgs'|]
  }

  /** Strong eventual consistency, with its exact condition: it holds for all stores over a
      family of element clocks if and only if `Beats` orders each element's clocks. */
  lemma ConvergesIff(fam: Family, sets: iset<string>)
    ensures Converges(fam, sets) <==> LinearFamily(fam, sets)
  {
    if LinearFamily(fam, sets) {
      forall msgs, sts, msgs', sts' |
        Delivered(fam, sets, msgs, sts) && Delivered(fam, sets, msgs', sts') && SameStates(msgs, sts, msgs', sts')
        ensures sts[|msgs|] == sts'[|msgs'|]
      {
        AllBelowLast(fam, sets, msgs, sts, msgs', sts');
        AllBelowLast(fam, sets, msgs', sts', msgs, sts);
        StoreBelowAntisymmetric(sts[|msgs|], sts'[|msgs'|]);
      }
    }
    if Converges(fam, sets) {
      forall k, adds, e | k in sets ensures Linear(fam(k, adds, e)) {
        forall a, b | a in fam(k, adds, e) && b in fam(k, adds, e) ensures OrderIndependent(a, b) {
          TwoDecide(fam, sets, k, adds, e, a, b);
        }
        forall a, b | a in fam(k, adds, e) && b in fam(k, adds, e) ensures a == b || Beats(a, b) || Beats(b, a) {
          OrderIndependentIff(a, b);
        }
        forall a, b, c | a in fam(k, adds, e) && b in fam(k, adds, e) && c in fam(k, adds, e) && Beats(a, b)
          && Beats(b, c)
          ensures Beats(a, c)
        {
          ThreeDecide(fam, sets, k, adds, e, a, b, c);
        }
      }
    }
  }

  /** A store holding one clock, for one element of one set. */
  function Single(k: string, adds: bool, e: string, c: Clock): StoreState {
    map[k := ASet(SetState(k, if adds then map[e := c] else map[], if adds then map[] else map[e := c], map[]))]
  }

  lemma SingleSync(k: string, adds: bool, e: string, a: Clock, b: Clock, c: Clock)
    requires Resolves(a, b, c)
    ensures SyncOf(Export(Single(k, adds, e, a)), Single(k, adds, e, b), Single(k, adds, e, a), Single(k, adds, e, c))
  {
    var s, m, r := Single(k, adds, e, a), Single(k, adds, e, b), Single(k, adds, e, c);
    assert Lub(map[], map[]) == map[];
    assert MergeOf(s[k], m[k], r[k]);
  }

  lemma SingleInjective(k: string, adds: bool, e: string, a: Clock, b: Clock)
    requires Single(k, adds, e, a) == Single(k, adds, e, b)
    ensures a == b
  {
    var s, m := Single(k, adds, e, a)[k].s, Single(k, adds, e, b)[k].s;
    assert if adds then s.adds[e] == a && m.adds[e] == b else s.removes[e] == a && m.removes[e] == b;
  }

  function Singles(k: string, adds: bool, e: string, cs: seq<Clock>): seq<StoreState> {
    seq(|cs|, i requires 0 <= i < |cs| => Single(k, adds, e, cs[i]))
  }

  /** rs[0] resolved against the clocks cs one after the other. */
  ghost predicate Chain(C: iset<Clock>, cs: seq<Clock>, rs: seq<Clock>) {
    && |rs| == |cs| + 1 && rs[0] in C
    && (forall i :: 0 <= i < |cs| ==> cs[i] in C && Resolves(rs[i], cs[i], rs[i + 1]))
  }

  lemma SinglesDelivered(fam: Family, sets: iset<string>, k: string, adds: bool, e: string, cs: seq<Clock>,
                         rs: seq<Clock>)
    requires k in sets && Chain(fam(k, adds, e), cs, rs)
    ensures Delivered(fam, sets, Singles(k, adds, e, cs), Singles(k, adds, e, rs))
  {
    forall i | 0 <= i < |cs|
      ensures SyncOf(Export(Singles(k, adds, e, rs)[i]), Singles(k, adds, e, cs)[i], Singles(k, adds, e, rs)[i],
                     Singles(k, adds, e, rs)[i + 1])
    {
      SingleSync(k, adds, e, rs[i], cs[i], rs[i + 1]);
    }
  }

  lemma SinglesAgree(fam: Family, sets: iset<string>, k: string, adds: bool, e: string,
                     cs: seq<Clock>, rs: seq<Clock>, cs': seq<Clock>, rs': seq<Clock>)
    requires Converges(fam, sets) && k in sets && Chain(fam(k, adds, e), cs, rs) && Chain(fam(k, adds, e), cs', rs')
    requires forall c :: c == rs[0] || c in cs <==> c == rs'[0] || c in cs'
    ensures rs[|cs|] == rs'[|cs'|]
  {
    SinglesDelivered(fam, sets, k, adds, e, cs, rs);
    SinglesDelivered(fam, sets, k, adds, e, cs', rs');
    var m, s, m', s' := Singles(k, adds, e, cs), Singles(k, adds, e, rs), Singles(k, adds, e, cs'),
      Singles(k, adds, e, rs');
    SinglesCover(k, adds, e, cs, rs, cs', rs');
    SinglesCover(k, adds, e, cs', rs', cs, rs);
    assert SameStates(m, s, m', s');
    assert s[|m|] == s'[|m'|];
    SingleInjective(k, adds, e, rs[|cs|], rs'[|cs'|]);
  }

  lemma SinglesCover(k: string, adds: bool, e: string, cs: seq<Clock>, rs: seq<Clock>, cs': seq<Clock>, rs': seq<Clock>)
    requires rs != [] && rs' != []
    requires forall c :: c == rs[0] || c in cs ==> c == rs'[0] || c in cs'
    ensures forall st :: st == Singles(k, adds, e, rs)[0] || st in Singles(k, adds, e, cs)
                         ==> st == Singles(k, adds, e, rs')[0] || st in Singles(k, adds, e, cs')
  {
    forall st | st == Singles(k, adds, e, rs)[0] || st in Singles(k, adds, e, cs)
      ensures st == Singles(k, adds, e, rs')[0] || st in Singles(k, adds, e, cs')
    {
      var c :| (c == rs[0] || c in cs) && st == Single(k, adds, e, c);
      if c != rs'[0] {
        assert c in cs';
        var i :| 0 <= i < |cs'| && cs'[i] == c;
        assert Singles(k, adds, e, cs')[i] == st;
      }
    }
  }

  lemma TwoDecide(fam: Family, sets: iset<string>, k: string, adds: bool, e: string, a: Clock, b: Clock)
    requires Converges(fam, sets) && k in sets && a in fam(k, adds, e) && b in fam(k, adds, e)
    ensures OrderIndependent(a, b)
  {
    forall r, t | Resolves(a, b, r) && Resolves(b, a, t) ensures r == t {
      SinglesAgree(fam, sets, k, adds, e, [b], [a, r], [a], [b, t]);
    }
  }

  lemma ThreeDecide(fam: Family, sets: iset<string>, k: string, adds: bool, e: string, a: Clock, b: Clock, c: Clock)
    requires Converges(fam, sets) && k in sets && a in fam(k, adds, e) && b in fam(k, adds, e) && c in fam(k, adds, e)
    requires Beats(a, b) && Beats(b, c)
    ensures Beats(a, c)
  {
    BeatsAsymmetric(a, b);
    SettledOnce(a, b, a);
    SettledOnce(b, c, b);
    SettledOnce(b, a, a);
    TwoDecide(fam, sets, k, adds, e, a, c);
    OrderIndependentIff(a, c);
    var w := ResolvesTotal(a, c);
    SettledOnce(a, c, w);
    SinglesAgree(fam, sets, k, adds, e, [b, c], [a, a, w], [c, a], [b, b, a]);
  }

  lemma AllBelowLast(fam: Family, sets: iset<string>,
                     msgs: seq<StoreState>, sts: seq<StoreState>, msgs': seq<StoreState>, sts': seq<StoreState>)
    requires LinearFamily(fam, sets) && Receives(msgs, sts) && Receives(msgs', sts')
    requires StoreFits(fam, sets, sts[0]) && forall m :: m in msgs ==> StoreFits(fam, sets, m)
    requires StoreFits(fam, sets, sts'[0]) && forall m :: m in msgs' ==> StoreFits(fam, sets, m)
    requires forall m :: m == sts[0] || m in msgs ==> m == sts'[0] || m in msgs'
    ensures StoreBelow(sts[|msgs|], sts'[|msgs'|])
  {
    ReceivesJoin(fam, sets, msgs, sts, |msgs|);
    ReceivesJoin(fam, sets, msgs', sts', |msgs'|);
    forall m | m == sts[0] || m in msgs ensures StoreBelow(m, sts'[|msgs'|]) {
      if m != sts'[0] {
        assert m in msgs';
        var i :| 0 <= i < |msgs'| && msgs'[i] == m;
      }
    }
    forall i | 0 <= i < |msgs| ensures StoreBelow(msgs[i], sts'[|msgs'|]) {
      assert msgs[i] in msgs;
    }
  }

  /** The clocks a running node issues form such a family. */
  ghost function OneEntryFamily(): Family {
    (k, adds, e) => iset c: Clock | OneEntry(c)
  }

  lemma OneEntryFamilyLinear(sets: iset<string>)
    ensures LinearFamily(OneEntryFamily(), sets)
  {
    OneEntryLinear();
  }
}
