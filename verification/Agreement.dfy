/** When the nodes agree after one pass of pairwise synchronisation. That takes less than merging being
    a join: whatever grouping does to the result, every node ends with the same one. */
module Agreement {
  import opened Clocks
  import opened Crdts
  import opened Convergence
  import opened SyncPass

  /** Any two clocks of an element resolve alike from both sides. */
  ghost predicate PairwiseSettled(fam: Family, sets: iset<string>) {
    forall k, adds, e, a, b :: k in sets && a in fam(k, adds, e) && b in fam(k, adds, e) ==> OrderIndependent(a, b)
  }

  // ---- The result of merging ----

  ghost function BlendClocks(a: ClockMap, b: ClockMap): ClockMap {
    map e | e in a.Keys + b.Keys :: if e !in b then a[e] else if e !in a then b[e] else Win(a[e], b[e])
  }

  ghost function BlendObjects(a: ObjectState, b: ObjectState): ObjectState {
    match (a, b)
    case (ASet(s), ASet(o)) =>
      ASet(SetState(s.key, BlendClocks(s.adds, o.adds), BlendClocks(s.removes, o.removes),
                    Lub(s.timestamp, o.timestamp)))
    case (ACounter(c), ACounter(d)) =>
      ACounter(CounterState(c.key, Lub(c.counters, d.counters), Lub(c.timestamp, d.timestamp)))
    case _ => a
  }

  ghost function Blend(a: StoreState, b: StoreState): StoreState {
    map k | k in a.Keys + b.Keys :: if k !in b then a[k] else if k !in a then b[k] else BlendObjects(a[k], b[k])
  }

  lemma WinLaws(a: Clock, b: Clock)
    requires OrderIndependent(a, b)
    ensures Win(a, b) == Win(b, a) && (Win(a, b) == a || Win(a, b) == b)
    ensures Win(a, Win(a, b)) == Win(a, b)
  {
    OrderIndependentIff(a, b);
    if Beats(a, b) { BeatsAsymmetric(a, b); }
    if Beats(b, a) { BeatsAsymmetric(b, a); }
  }

  lemma BlendClocksLaws(a: ClockMap, b: ClockMap)
    requires NoOpenConflict(a, b)
    ensures BlendClocks(a, b) == BlendClocks(b, a)
    ensures BlendClocks(a, BlendClocks(a, b)) == BlendClocks(a, b)
  {
    forall e | e in a && e in b
      ensures Win(a[e], b[e]) == Win(b[e], a[e]) && Win(a[e], Win(a[e], b[e])) == Win(a[e], b[e]) {
      WinLaws(a[e], b[e]);
    }
    forall e | e in a ensures Win(a[e], a[e]) == a[e] { }
    assert BlendClocks(a, b).Keys == BlendClocks(b, a).Keys == BlendClocks(a, BlendClocks(a, b)).Keys;
  }

  lemma MergeBlends(a: ClockMap, b: ClockMap, r: ClockMap)
    requires NoOpenConflict(a, b) && ClockMapMerge(a, b, r)
    ensures r == BlendClocks(a, b)
  {
    forall e | e in r ensures r[e] == BlendClocks(a, b)[e] {
      assert ElementMerge(a, b, e, r[e]);
      if e in a && e in b {
        OrderIndependentIff(a[e], b[e]);
        SettledOnce(a[e], b[e], r[e]);
      }
    }
  }

  lemma FittingSettled(fam: Family, sets: iset<string>, k: string, a: ObjectState, b: ObjectState)
    requires PairwiseSettled(fam, sets) && Fits(fam, sets, k, a) && Fits(fam, sets, k, b) && a.ASet?
    ensures b.ASet? && NoOpenConflict(a.s.adds, b.s.adds) && NoOpenConflict(a.s.removes, b.s.removes)
  {
    forall e | e in a.s.adds && e in b.s.adds ensures OrderIndependent(a.s.adds[e], b.s.adds[e]) {
      assert a.s.adds[e] in fam(k, true, e) && b.s.adds[e] in fam(k, true, e);
    }
    forall e | e in a.s.removes && e in b.s.removes ensures OrderIndependent(a.s.removes[e], b.s.removes[e]) {
      assert a.s.removes[e] in fam(k, false, e) && b.s.removes[e] in fam(k, false, e);
    }
  }

  lemma BlendObjectsLaws(fam: Family, sets: iset<string>, k: string, a: ObjectState, b: ObjectState)
    requires PairwiseSettled(fam, sets) && Fits(fam, sets, k, a) && Fits(fam, sets, k, b)
    ensures BlendObjects(a, b) == BlendObjects(b, a) && BlendObjects(a, BlendObjects(a, b)) == BlendObjects(a, b)
    ensures Fits(fam, sets, k, BlendObjects(a, b))
    ensures forall r :: MergeOf(a, b, r) ==> r == BlendObjects(a, b)
  {
    if a.ASet? {
      FittingSettled(fam, sets, k, a, b);
      BlendClocksLaws(a.s.adds, b.s.adds);
      BlendClocksLaws(a.s.removes, b.s.removes);
      TimestampLaws(a.s.timestamp, b.s.timestamp);
      forall r | MergeOf(a, b, r) ensures r == BlendObjects(a, b) {
        MergeBlends(a.s.adds, b.s.adds, r.s.adds);
        MergeBlends(a.s.removes, b.s.removes, r.s.removes);
      }
    } else {
      TimestampLaws(a.c.counters, b.c.counters);
      TimestampLaws(a.c.timestamp, b.c.timestamp);
    }
  }

  lemma TimestampLaws(a: Clock, b: Clock)
    ensures Lub(a, b) == Lub(b, a) && Lub(a, Lub(a, b)) == Lub(a, b)
  {
    LubLaws(a, b, b);
    LubIsLeast(a, b, Lub(a, b));
    LubAbsorbs(a, Lub(a, b));
  }

  /** Blending is commutative and absorbs what has been blended in. */
  lemma BlendLaws(fam: Family, sets: iset<string>, a: StoreState, b: StoreState)
    requires PairwiseSettled(fam, sets) && StoreFits(fam, sets, a) && StoreFits(fam, sets, b)
    ensures Blend(a, b) == Blend(b, a) && Blend(a, Blend(a, b)) == Blend(a, b) && StoreFits(fam, sets, Blend(a, b))
  {
    forall k | k in a && k in b
      ensures BlendObjects(a[k], b[k]) == BlendObjects(b[k], a[k])
      ensures BlendObjects(a[k], BlendObjects(a[k], b[k])) == BlendObjects(a[k], b[k])
      ensures Fits(fam, sets, k, BlendObjects(a[k], b[k]))
    {
      BlendObjectsLaws(fam, sets, k, a[k], b[k]);
    }
    forall k | k in a ensures BlendObjects(a[k], a[k]) == a[k] {
      BlendSelf(a[k]);
    }
    assert Blend(a, b).Keys == Blend(b, a).Keys == Blend(a, Blend(a, b)).Keys;
  }

  lemma BlendSelf(o: ObjectState)
    ensures BlendObjects(o, o) == o
  {
    if o.ASet? {
      TimestampLaws(o.s.timestamp, o.s.timestamp);
      LubLaws(o.s.timestamp, o.s.timestamp, o.s.timestamp);
      assert BlendClocks(o.s.adds, o.s.adds) == o.s.adds;
      assert BlendClocks(o.s.removes, o.s.removes) == o.s.removes;
    } else {
      LubLaws(o.c.counters, o.c.counters, o.c.counters);
      LubLaws(o.c.timestamp, o.c.timestamp, o.c.timestamp);
    }
  }

  /** Applying a state blends it in, whatever the map order. */
  lemma SyncBlends(fam: Family, sets: iset<string>, a: StoreState, b: StoreState, r: StoreState)
    requires PairwiseSettled(fam, sets) && StoreFits(fam, sets, a) && StoreFits(fam, sets, b)
    requires SyncOf(Export(a), Export(b), a, r)
    ensures r == Blend(a, b)
  {
    ExportOfFitting(fam, sets, a);
    ExportOfFitting(fam, sets, b);
    forall k ensures (k in r <==> k in a || k in b) && (k in r ==> r[k] == Blend(a, b)[k]) {
      assert Synced(a, b, a, r, k);
      if k in a && k in b {
        assert Fits(fam, sets, k, a[k]) && Fits(fam, sets, k, b[k]);
        BlendObjectsLaws(fam, sets, k, a[k], b[k]);
      }
    }
  }

  lemma BlendEmpty(a: StoreState)
    ensures Blend(map[], a) == a
  {
  }

  // ---- One pass ----

  /** The online states among the first n, blended one after the other. */
  ghost function Fold(inits: seq<StoreState>, online: seq<bool>, n: nat): StoreState
    requires |inits| == |online| && n <= |inits|
  {
    if n == 0 then map[]
    else if online[n - 1] then Blend(Fold(inits, online, n - 1), inits[n - 1])
    else Fold(inits, online, n - 1)
  }

  /** Some node before i is online. */
  predicate SomeBefore(online: seq<bool>, i: nat)
    requires i <= |online|
  {
    exists f :: 0 <= f < i && online[f]
  }

  /** What node k holds when the loops come to the pair (i, j). */
  ghost function Held(inits: seq<StoreState>, online: seq<bool>, i: nat, j: nat, k: nat): StoreState
    requires |inits| == |online| && k < |inits| && i < j <= |inits| + 1 && i <= |inits|
  {
    if !online[k] then inits[k]
    else if k < i then Fold(inits, online, |inits|)
    else if k == i then Fold(inits, online, if j <= |inits| then j else |inits|)
    else if SomeBefore(online, i) || (online[i] && k < j) then Fold(inits, online, k + 1)
    else inits[k]
  }

  ghost predicate Holds(inits: seq<StoreState>, online: seq<bool>, i: nat, j: nat, sts: seq<StoreState>)
    requires |inits| == |online| && i < j <= |inits| + 1 && i <= |inits|
  {
    |sts| == |inits| && forall k: nat :: k < |sts| ==> sts[k] == Held(inits, online, i, j, k)
  }

  lemma {:induction false} FoldFits(fam: Family, sets: iset<string>, inits: seq<StoreState>, online: seq<bool>, n: nat)
    requires PairwiseSettled(fam, sets) && |inits| == |online| && AllFit(fam, sets, inits, online) && n <= |inits|
    ensures StoreFits(fam, sets, Fold(inits, online, n))
  {
    if n > 0 {
      FoldFits(fam, sets, inits, online, n - 1);
      if online[n - 1] { BlendLaws(fam, sets, Fold(inits, online, n - 1), inits[n - 1]); }
    }
  }

  lemma {:induction false} FoldNone(inits: seq<StoreState>, online: seq<bool>, n: nat)
    requires |inits| == |online| && n <= |inits| && !SomeBefore(online, n)
    ensures Fold(inits, online, n) == map[]
  {
    if n > 0 {
      assert !online[n - 1];
      FoldNone(inits, online, n - 1);
    }
  }

  /** What one turn makes of the node that has the lower number, and of the other one. */
  lemma TurnBlends(fam: Family, sets: iset<string>, inits: seq<StoreState>, online: seq<bool>, j: nat, b: StoreState,
                   a': StoreState, b': StoreState)
    requires PairwiseSettled(fam, sets) && |inits| == |online| && AllFit(fam, sets, inits, online)
    requires j < |online| && online[j] && (b == inits[j] || b == Fold(inits, online, j + 1))
    requires PairSync(Fold(inits, online, j), b, a', b')
    ensures a' == Fold(inits, online, j + 1) == b'
  {
    var a := Fold(inits, online, j);
    FoldFits(fam, sets, inits, online, j);
    FoldFits(fam, sets, inits, online, j + 1);
    SyncBlends(fam, sets, a, b, a');
    SyncBlends(fam, sets, b, a, b');
    BlendLaws(fam, sets, a, b);
    BlendLaws(fam, sets, a, inits[j]);
  }

  lemma TurnHolds(fam: Family, sets: iset<string>, inits: seq<StoreState>, online: seq<bool>, i: nat, j: nat, next: nat,
                  sts: seq<StoreState>, mid: seq<StoreState>)
    requires PairwiseSettled(fam, sets) && |inits| == |online| == |sts| && AllFit(fam, sets, inits, online)
    requires i < j < |online| && next == j + 1 && Holds(inits, online, i, j, sts) && PairTurn(online, i, j, sts, mid)
    ensures Holds(inits, online, i, next, mid)
  {
    if online[i] && online[j] {
      assert sts[i] == Held(inits, online, i, j, i) && sts[j] == Held(inits, online, i, j, j);
      TurnBlends(fam, sets, inits, online, j, sts[j], mid[i], mid[j]);
    }
    forall k: nat | k < |mid| ensures mid[k] == Held(inits, online, i, next, k) {
      assert sts[k] == Held(inits, online, i, j, k);
    }
  }

  lemma RowHolds(inits: seq<StoreState>, online: seq<bool>, i: nat, j: nat, next: nat, sts: seq<StoreState>)
    requires |inits| == |online| == |sts| && i < |online| <= j <= |online| + 1 && i < j && next == i + 1
    requires Holds(inits, online, i, j, sts)
    ensures Holds(inits, online, next, next + 1, sts)
  {
    assert SomeBefore(online, next) <==> SomeBefore(online, i) || online[i];
    forall k: nat | k < |sts| ensures sts[k] == Held(inits, online, next, next + 1, k) {
      assert sts[k] == Held(inits, online, i, j, k);
      if k == next && !SomeBefore(online, next) {
        FoldNone(inits, online, k);
        BlendEmpty(inits[k]);
      }
    }
  }

  lemma StartHolds(inits: seq<StoreState>, online: seq<bool>)
    requires |inits| == |online|
    ensures Holds(inits, online, 0, 1, inits)
  {
    if |inits| > 0 {
      BlendEmpty(inits[0]);
      assert Fold(inits, online, 0) == map[];
      assert online[0] ==> Fold(inits, online, 1) == inits[0];
    }
  }

  lemma {:induction false} PassHolds(fam: Family, sets: iset<string>, inits: seq<StoreState>, online: seq<bool>,
                                     i: nat, j: nat, sts: seq<StoreState>, end: seq<StoreState>)
    requires PairwiseSettled(fam, sets) && |inits| == |online| == |sts| && AllFit(fam, sets, inits, online)
    requires i < j <= |online| + 1 && i <= |online| && Holds(inits, online, i, j, sts)
    requires Pass(online, i, j, sts, end)
    ensures |end| == |inits|
    ensures forall k :: 0 <= k < |end| ==> end[k] == if online[k] then Fold(inits, online, |inits|) else inits[k]
    decreases |online| - i, |online| - j
  {
    if i >= |online| {
      forall k: nat | k < |end| ensures end[k] == Held(inits, online, i, j, k) { }
    } else if j >= |online| {
      RowHolds(inits, online, i, j, i + 1, sts);
      PassHolds(fam, sets, inits, online, i + 1, i + 2, sts, end);
    } else {
      var mid := NextTurn(online, i, j, sts, end);
      TurnHolds(fam, sets, inits, online, i, j, j + 1, sts, mid);
      PassHolds(fam, sets, inits, online, i, j + 1, mid, end);
    }
  }

  ghost predicate OnlineEqual(online: seq<bool>, end: seq<StoreState>)
    requires |online| == |end|
  {
    forall k, l :: 0 <= k < |end| && 0 <= l < |end| && online[k] && online[l] ==> end[k] == end[l]
  }

  /** Every pass over online nodes with fitting stores, however many and in whatever order, leaves
      them equal. */
  ghost predicate PassAgrees(fam: Family, sets: iset<string>) {
    forall online, inits, end ::
      |inits| == |online| && AllFit(fam, sets, inits, online) && Pass(online, 0, 1, inits, end) && |end| == |online|
      ==> OnlineEqual(online, end)
  }

  lemma SettledAgree(fam: Family, sets: iset<string>, inits: seq<StoreState>, online: seq<bool>, end: seq<StoreState>)
    requires PairwiseSettled(fam, sets) && |inits| == |online| && AllFit(fam, sets, inits, online)
    requires Pass(online, 0, 1, inits, end)
    ensures |end| == |inits| && OnlineEqual(online, end)
    ensures forall k :: 0 <= k < |end| ==> end[k] == if online[k] then Fold(inits, online, |inits|) else inits[k]
  {
    StartHolds(inits, online);
    PassHolds(fam, sets, inits, online, 0, 1, inits, end);
  }

  lemma TwoNodes(a: StoreState, b: StoreState, a': StoreState, b': StoreState)
    requires PairSync(a, b, a', b')
    ensures Pass([true, true], 0, 1, [a, b], [a', b'])
  {
    var on, end := [true, true], [a', b'];
    assert PairTurn(on, 0, 1, [a, b], end);
    assert Pass(on, 2, 3, end, end) && Pass(on, 1, 2, end, end) && Pass(on, 0, 2, end, end);
  }

  lemma PairAgrees(fam: Family, sets: iset<string>, a: StoreState, b: StoreState, a': StoreState, b': StoreState)
    requires PassAgrees(fam, sets) && StoreFits(fam, sets, a) && StoreFits(fam, sets, b) && PairSync(a, b, a', b')
    ensures a' == b'
  {
    TwoNodes(a, b, a', b');
    assert AllFit(fam, sets, [a, b], [true, true]);
    assert OnlineEqual([true, true], [a', b']);
    assert [a', b'][0] == [a', b'][1];
  }

  lemma SinglesDecide(fam: Family, sets: iset<string>, k: string, adds: bool, e: string, a: Clock, b: Clock)
    requires PassAgrees(fam, sets) && k in sets && a in fam(k, adds, e) && b in fam(k, adds, e)
    ensures OrderIndependent(a, b)
  {
    forall r, t | Resolves(a, b, r) && Resolves(b, a, t) ensures r == t {
      SingleSync(k, adds, e, a, b, r);
      SingleSync(k, adds, e, b, a, t);
      var u, v := Single(k, adds, e, a), Single(k, adds, e, b);
      assert Export(u) == u && Export(v) == v;
      PairAgrees(fam, sets, u, v, Single(k, adds, e, r), Single(k, adds, e, t));
      SingleInjective(k, adds, e, r, t);
    }
  }

  /** Over any family of clocks, a pass always leaves the online nodes equal exactly when any two
      clocks of an element resolve alike from both sides; transitivity is not needed. */
  lemma PassAgreesIff(fam: Family, sets: iset<string>)
    ensures PassAgrees(fam, sets) <==> PairwiseSettled(fam, sets)
  {
    if PairwiseSettled(fam, sets) {
      forall online, inits, end |
        |inits| == |online| && AllFit(fam, sets, inits, online) && Pass(online, 0, 1, inits, end) && |end| == |online|
        ensures OnlineEqual(online, end)
      {
        SettledAgree(fam, sets, inits, online, end);
      }
    }
    if PassAgrees(fam, sets) {
      forall k, adds, e, a, b | k in sets && a in fam(k, adds, e) && b in fam(k, adds, e)
        ensures OrderIndependent(a, b) {
        SinglesDecide(fam, sets, k, adds, e, a, b);
      }
    }
  }

  /** What a pass leaves of the online and of the offline nodes. */
  lemma PassMeans(online: seq<bool>, inits: seq<StoreState>, end: seq<StoreState>)
    requires |inits| == |online| && Pass(online, 0, 1, inits, end)
    ensures |end| == |online| && forall k :: 0 <= k < |end| && !online[k] ==> end[k] == inits[k]
    ensures forall fam, sets :: PairwiseSettled(fam, sets) && AllFit(fam, sets, inits, online)
              ==> OnlineEqual(online, end)
    ensures forall fam, sets :: LinearFamily(fam, sets) && AllFit(fam, sets, inits, online)
                                ==> AllJoins(fam, sets, inits, online, end)
  {
    OfflineStay(online, 0, 1, inits, end);
    forall fam, sets | PairwiseSettled(fam, sets) && AllFit(fam, sets, inits, online) ensures OnlineEqual(online, end) {
      SettledAgree(fam, sets, inits, online, end);
    }
    forall fam, sets | LinearFamily(fam, sets) && AllFit(fam, sets, inits, online)
      ensures AllJoins(fam, sets, inits, online, end)
    {
      OnePassSuffices(fam, sets, inits, online, end);
    }
  }

  /** Every online node ends with the join of what the online nodes started with. */
  ghost predicate AllJoins(fam: Family, sets: iset<string>, inits: seq<StoreState>, online: seq<bool>,
                           end: seq<StoreState>)
    requires |inits| == |online| == |end|
  {
    forall k :: 0 <= k < |end| && online[k] ==> IsJoinOfOnline(fam, sets, inits, online, end[k])
  }

  lemma {:induction false} OfflineStay(online: seq<bool>, i: nat, j: nat, sts: seq<StoreState>, end: seq<StoreState>)
    requires |sts| == |online| && Pass(online, i, j, sts, end)
    ensures |end| == |sts| && forall k :: 0 <= k < |end| && !online[k] ==> end[k] == sts[k]
    decreases |online| - i, |online| - j
  {
    if i < |online| && j >= |online| {
      OfflineStay(online, i + 1, i + 2, sts, end);
    } else if i < |online| {
      var mid := NextTurn(online, i, j, sts, end);
      OfflineStay(online, i, j + 1, mid, end);
    }
  }
}
