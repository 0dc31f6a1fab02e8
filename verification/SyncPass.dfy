/** One pass of pairwise synchronisation over nodes of which some may be offline. */
module SyncPass {
  import opened Crdts
  import opened Convergence

  /** Both nodes merge the other's snapshot, taken before either changes. */
  ghost predicate PairSync(a: StoreState, b: StoreState, a': StoreState, b': StoreState) {
    SyncOf(Export(a), Export(b), a, a') && SyncOf(Export(b), Export(a), b, b')
  }

  /** The body of the nested loop, for nodes i and j: nothing happens when either is offline. */
  ghost predicate PairTurn(online: seq<bool>, i: nat, j: nat, sts: seq<StoreState>, sts': seq<StoreState>)
    requires i < |online| && j < |online| && |sts| == |online|
  {
    if online[i] && online[j] && i != j then
      && |sts'| == |sts| && PairSync(sts[i], sts[j], sts'[i], sts'[j])
      && forall k :: 0 <= k < |sts| && k != i && k != j ==> sts'[k] == sts[k]
    else sts' == sts
  }

  /** What is left of the loops over i < j may turn the states sts into end. */
  ghost predicate Pass(online: seq<bool>, i: nat, j: nat, sts: seq<StoreState>, end: seq<StoreState>)
    requires |sts| == |online|
    decreases |online| - i, |online| - j
  {
    if i >= |online| then end == sts
    else if j >= |online| then Pass(online, i + 1, i + 2, sts, end)
    else exists mid :: PairTurn(online, i, j, sts, mid) && Pass(online, i, j + 1, mid, end)
  }

  /** Whatever the rest of the pass makes of sts, the whole pass can make of inits. */
  ghost predicate LeadsTo(online: seq<bool>, inits: seq<StoreState>, i: nat, j: nat, sts: seq<StoreState>)
    requires |inits| == |sts| == |online|
  {
    forall end :: Pass(online, i, j, sts, end) ==> Pass(online, 0, 1, inits, end)
  }

  lemma TurnLeads(online: seq<bool>, inits: seq<StoreState>, i: nat, j: nat, next: nat, sts: seq<StoreState>,
                  mid: seq<StoreState>)
    requires |inits| == |sts| == |online| == |mid| && i < j < |online| && next == j + 1
    requires LeadsTo(online, inits, i, j, sts) && PairTurn(online, i, j, sts, mid)
    ensures LeadsTo(online, inits, i, next, mid)
  {
    forall end | Pass(online, i, next, mid, end) ensures Pass(online, 0, 1, inits, end) {
      assert Pass(online, i, j, sts, end);
    }
  }

  lemma RowLeads(online: seq<bool>, inits: seq<StoreState>, i: nat, j: nat, sts: seq<StoreState>)
    requires |inits| == |sts| == |online| && i < |online| <= j && LeadsTo(online, inits, i, j, sts)
    ensures LeadsTo(online, inits, i + 1, i + 2, sts)
  {
  }

  lemma EndLeads(online: seq<bool>, inits: seq<StoreState>, i: nat, j: nat, sts: seq<StoreState>)
    requires |inits| == |sts| == |online| && i >= |online| && LeadsTo(online, inits, i, j, sts)
    ensures Pass(online, 0, 1, inits, sts)
  {
  }

  // ---- One pass is enough ----

  /** By the time of the pair (i, j), node k has received what node f started with. */
  predicate Got(i: nat, j: nat, k: nat, f: nat) {
    f == k || k < i || (k == i && f < j) || (k > i && (f < i || (f == i && k < j)))
  }

  /** st is fitting and holds nothing but what the online nodes started with. */
  ghost predicate Within(fam: Family, sets: iset<string>, inits: seq<StoreState>, online: seq<bool>, st: StoreState)
    requires |inits| == |online|
  {
    StoreFits(fam, sets, st) && forall u :: StoreFits(fam, sets, u) && AboveAll(inits, online, u) ==> StoreBelow(st, u)
  }

  ghost predicate AllFit(fam: Family, sets: iset<string>, inits: seq<StoreState>, online: seq<bool>)
    requires |inits| == |online|
  {
    forall k :: 0 <= k < |inits| && online[k] ==> StoreFits(fam, sets, inits[k])
  }

  ghost predicate AboveAll(inits: seq<StoreState>, online: seq<bool>, u: StoreState)
    requires |inits| == |online|
  {
    forall f :: 0 <= f < |inits| && online[f] ==> StoreBelow(inits[f], u)
  }

  /** What holds of node k, now in state st, by the time of the pair (i, j). */
  ghost predicate NodeAt(fam: Family, sets: iset<string>, inits: seq<StoreState>, online: seq<bool>, i: nat, j: nat,
                         k: nat, st: StoreState)
    requires |inits| == |online| && k < |inits|
  {
    if online[k] then
      && Within(fam, sets, inits, online, st)
      && forall f :: 0 <= f < |inits| && online[f] && Got(i, j, k, f) ==> StoreBelow(inits[f], st)
    else st == inits[k]
  }

  ghost predicate Progress(fam: Family, sets: iset<string>, inits: seq<StoreState>, online: seq<bool>, i: nat,
                           j: nat, sts: seq<StoreState>)
    requires |inits| == |online| == |sts|
  {
    forall k :: 0 <= k < |sts| ==> NodeAt(fam, sets, inits, online, i, j, k, sts[k])
  }

  /** Of two nodes that merge, one goes from a to r. */
  lemma NodeMerges(fam: Family, sets: iset<string>, inits: seq<StoreState>, online: seq<bool>, i: nat, j: nat,
                   k: nat, a: StoreState, l: nat, b: StoreState, r: StoreState)
    requires LinearFamily(fam, sets) && |inits| == |online| && i < j < |online| && online[i] && online[j]
    requires AllFit(fam, sets, inits, online)
    requires (k == i && l == j) || (k == j && l == i)
    requires NodeAt(fam, sets, inits, online, i, j, k, a) && NodeAt(fam, sets, inits, online, i, j, l, b)
    requires SyncOf(Export(a), Export(b), a, r)
    ensures NodeAt(fam, sets, inits, online, i, j + 1, k, r)
  {
    PairWithin(fam, sets, inits, online, a, b, r);
    forall f | 0 <= f < |inits| && online[f] && Got(i, j + 1, k, f) ensures StoreBelow(inits[f], r) {
      if Got(i, j, k, f) {
        StoreBelowTransitive(fam, sets, inits[f], a, r);
      } else {
        StoreBelowTransitive(fam, sets, inits[f], b, r);
      }
    }
  }

  /** The states of node k that go into its next state. */
  lemma NodeTurn(fam: Family, sets: iset<string>, inits: seq<StoreState>, online: seq<bool>, i: nat, j: nat,
                 sts: seq<StoreState>, mid: seq<StoreState>, k: nat)
    requires LinearFamily(fam, sets) && |inits| == |online| == |sts| && i < j < |online| && k < |online|
    requires AllFit(fam, sets, inits, online) && PairTurn(online, i, j, sts, mid)
    requires forall l :: l in {i, j, k} ==> NodeAt(fam, sets, inits, online, i, j, l, sts[l])
    ensures |mid| == |sts| && NodeAt(fam, sets, inits, online, i, j + 1, k, mid[k])
  {
    if online[i] && online[j] && (k == i || k == j) {
      var l := if k == i then j else i;
      NodeMerges(fam, sets, inits, online, i, j, k, sts[k], l, sts[l], mid[k]);
    } else {
      assert mid[k] == sts[k];
    }
  }

  lemma PairProgress(fam: Family, sets: iset<string>, inits: seq<StoreState>, online: seq<bool>, i: nat, j: nat,
                     sts: seq<StoreState>, mid: seq<StoreState>)
    requires LinearFamily(fam, sets) && |inits| == |online| == |sts| && i < j < |online|
    requires AllFit(fam, sets, inits, online)
    requires Progress(fam, sets, inits, online, i, j, sts) && PairTurn(online, i, j, sts, mid)
    ensures |mid| == |sts| && Progress(fam, sets, inits, online, i, j + 1, mid)
  {
    forall k | 0 <= k < |mid| ensures k < |online| && NodeAt(fam, sets, inits, online, i, j + 1, k, mid[k]) {
      NodeTurn(fam, sets, inits, online, i, j, sts, mid, k);
    }
  }

  lemma RowProgress(fam: Family, sets: iset<string>, inits: seq<StoreState>, online: seq<bool>, i: nat, j: nat,
                    sts: seq<StoreState>)
    requires |inits| == |online| == |sts| && i < |online| <= j && Progress(fam, sets, inits, online, i, j, sts)
    ensures Progress(fam, sets, inits, online, i + 1, i + 2, sts)
  {
  }

  lemma PairWithin(fam: Family, sets: iset<string>, inits: seq<StoreState>, online: seq<bool>, a: StoreState,
                   b: StoreState, a': StoreState)
    requires LinearFamily(fam, sets) && |inits| == |online|
    requires Within(fam, sets, inits, online, a) && Within(fam, sets, inits, online, b)
    requires SyncOf(Export(a), Export(b), a, a')
    ensures Within(fam, sets, inits, online, a') && StoreBelow(a, a') && StoreBelow(b, a')
  {
    ExportOfFitting(fam, sets, b);
    SyncIsJoin(fam, sets, a, b, a');
  }

  /** The least state above what the online nodes start with. */
  ghost predicate IsJoinOfOnline(fam: Family, sets: iset<string>, inits: seq<StoreState>, online: seq<bool>,
                                 st: StoreState)
    requires |inits| == |online|
  {
    Within(fam, sets, inits, online, st) && AboveAll(inits, online, st)
  }

  lemma NextTurn(online: seq<bool>, i: nat, j: nat, sts: seq<StoreState>, end: seq<StoreState>)
      returns (mid: seq<StoreState>)
    requires |sts| == |online| && i < |online| && j < |online| && Pass(online, i, j, sts, end)
    ensures |mid| == |sts| && PairTurn(online, i, j, sts, mid) && Pass(online, i, j + 1, mid, end)
  {
    mid :| |mid| == |sts| && PairTurn(online, i, j, sts, mid) && Pass(online, i, j + 1, mid, end);
  }

  lemma {:induction false} PassProgress(fam: Family, sets: iset<string>, inits: seq<StoreState>, online: seq<bool>,
                                        i: nat, j: nat,
                                        sts: seq<StoreState>, end: seq<StoreState>) returns (i': nat, j': nat)
    requires LinearFamily(fam, sets) && |inits| == |online| == |sts| && i < j
    requires AllFit(fam, sets, inits, online)
    requires Progress(fam, sets, inits, online, i, j, sts) && Pass(online, i, j, sts, end)
    ensures |end| == |inits| <= i' && Progress(fam, sets, inits, online, i', j', end)
    decreases |online| - i, |online| - j
  {
    if i >= |online| {
      i', j' := i, j;
    } else if j >= |online| {
      RowProgress(fam, sets, inits, online, i, j, sts);
      i', j' := PassProgress(fam, sets, inits, online, i + 1, i + 2, sts, end);
    } else {
      var mid := NextTurn(online, i, j, sts, end);
      PairProgress(fam, sets, inits, online, i, j, sts, mid);
      i', j' := PassProgress(fam, sets, inits, online, i, j + 1, mid, end);
    }
  }

  /** When each element's clocks are linear, one pass, over any number of nodes in any order, brings every online
      node to the join of what the online nodes started with, which does not depend on the order. When the
      nodes merely end equal is the subject of module Agreement. */
  lemma OnePassSuffices(fam: Family, sets: iset<string>, inits: seq<StoreState>, online: seq<bool>,
                        end: seq<StoreState>)
    requires LinearFamily(fam, sets) && |inits| == |online|
    requires AllFit(fam, sets, inits, online)
    requires Pass(online, 0, 1, inits, end)
    ensures |end| == |inits|
    ensures forall k :: 0 <= k < |end| && online[k] ==> IsJoinOfOnline(fam, sets, inits, online, end[k])
    ensures forall k, l :: 0 <= k < |end| && 0 <= l < |end| && online[k] && online[l] ==> end[k] == end[l]
    ensures forall k :: 0 <= k < |end| && !online[k] ==> end[k] == inits[k]
  {
    forall k | 0 <= k < |inits| ensures NodeAt(fam, sets, inits, online, 0, 1, k, inits[k]) {
      StoreBelowReflexive(inits[k]);
    }
    var i, j := PassProgress(fam, sets, inits, online, 0, 1, inits, end);
    assert forall k :: 0 <= k < |end| ==> NodeAt(fam, sets, inits, online, i, j, k, end[k]);
    forall k, l | 0 <= k < |end| && 0 <= l < |end| && online[k] && online[l] ensures end[k] == end[l] {
      assert IsJoinOfOnline(fam, sets, inits, online, end[k]) && IsJoinOfOnline(fam, sets, inits, online, end[l]);
      StoreBelowAntisymmetric(end[k], end[l]);
    }
  }
}
