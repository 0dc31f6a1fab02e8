/** Nodes that are given the same states and end up showing different elements. */
module Disagreement {
  import opened Strings
  import opened Clocks
  import opened Crdts
  import opened Engines
  import opened Convergence
  import opened SyncPass

  const USERS := "users"
  const EVE := "eve"

  /** A store with one set, in which only one element was ever added or removed. */
  function Users(adds: ClockMap, removes: ClockMap, timestamp: Clock): StoreState {
    map[USERS := ASet(SetState(USERS, adds, removes, timestamp))]
  }

  function Add(node: string): Operation {
    Operation(OpAdd, USERS, node, EVE, 0, map[])
  }

  function Remove(node: string): Operation {
    Operation(OpRemove, USERS, node, EVE, 0, map[])
  }

  /** No family of clocks with a circle converges. */
  lemma CircleDiverges(fam: Family, sets: iset<string>, k: string, adds: bool, e: string)
    requires k in sets && map["a" := 1] in fam(k, adds, e)
    requires map["b" := 5] in fam(k, adds, e) && map["a" := 1, "c" := 2] in fam(k, adds, e)
    ensures !Converges(fam, sets)
  {
    Circle();
    ConvergesIff(fam, sets);
    BeatsAsymmetric(map["a" := 1, "c" := 2], map["a" := 1]);
  }

  // ---- The states ----

  /** What a first operation, or an operation without a clock after it, leaves. */
  function Removed(t: Clock): StoreState {
    Users(map[], map[EVE := t], t)
  }

  function AddedBack(): StoreState {
    Users(map[EVE := map["a" := 2]], map[EVE := map["a" := 1]], map["a" := 2])
  }

  /** The operations are accepted one after the other and lead through the states. */
  ghost predicate Submits(ops: seq<Operation>, sts: seq<StoreState>) {
    |sts| == |ops| + 1 && forall i :: 0 <= i < |ops| ==> Accepts(sts[i], ops[i], sts[i + 1])
  }

  predicate Accepts(st: StoreState, op: Operation, st': StoreState) {
    Refusal(st, op).None? && Submit(st, op) == st'
  }

  lemma Accepted(node: string, st: StoreState)
    requires node in {"a", "b", "c"} && (USERS in st ==> st[USERS].ASet?)
    ensures Refusal(st, Add(node)).None? && Refusal(st, Remove(node)).None?
  {
    assert node[0] in node && USERS[0] in USERS && EVE[0] in EVE;
  }

  lemma FirstRemove(node: string)
    requires node in {"a", "b", "c"}
    ensures Accepts(map[], Remove(node), Removed(map[node := 1]))
  {
    Accepted(node, map[]);
    assert Lub(map[], map[node := 1]) == map[node := 1];
  }

  lemma NextRemove(t: Clock, node: string, t': Clock)
    requires node in {"a", "b", "c"} && Bump(t, node) == t'
    ensures Accepts(Removed(t), Remove(node), Removed(t'))
  {
    Accepted(node, Removed(t));
    BumpIsAbove(t, node);
    LubAbsorbs(t, t');
    assert SetAfter(Removed(t)[USERS].s, Remove(node)).removes == map[EVE := t'];
  }

  /** Adding the element back after a removal. */
  lemma AddBack(t: Clock, node: string, t': Clock)
    requires node in {"a", "b", "c"} && Bump(t, node) == t'
    ensures Accepts(Removed(t), Add(node), Users(map[EVE := t'], map[EVE := t], t'))
  {
    Accepted(node, Removed(t));
    BumpIsAbove(t, node);
    LubAbsorbs(t, t');
    assert SetAfter(Removed(t)[USERS].s, Add(node)).adds == map[EVE := t'];
  }

  /** Node a removes an element and adds it again, both without a clock. */
  lemma NodeA()
    ensures Submits([Remove("a"), Add("a")], [map[], Removed(map["a" := 1]), AddedBack()])
  {
    FirstRemove("a");
    assert Bump(map["a" := 1], "a") == map["a" := 2];
    AddBack(map["a" := 1], "a", map["a" := 2]);
  }

  /** What n removals at node b, and none elsewhere, leave. */
  function Emptied(n: nat): StoreState {
    if n == 0 then map[] else Removed(map["b" := n])
  }

  /** Node b removes it five times, ... */
  lemma NodeB()
    ensures Submits(seq(5, _ => Remove("b")), seq(6, i requires 0 <= i => Emptied(i)))
    ensures Emptied(0) == map[] && Emptied(5) == Removed(map["b" := 5])
  {
    forall i | 0 <= i < 5 ensures Accepts(Emptied(i), Remove("b"), Emptied(i + 1)) {
      FirstRemove("b");
      assert i > 0 ==> Bump(map["b" := i], "b") == map["b" := i + 1];
      if i > 0 { NextRemove(map["b" := i], "b", map["b" := i + 1]); }
    }
  }

  /** ... and node c, when it has applied the first state of node a, twice. */
  lemma NodeC()
    ensures Submits([Remove("a")], [map[], Removed(map["a" := 1])])
    ensures SyncOf(Export(map[]), Removed(map["a" := 1]), map[], Removed(map["a" := 1]))
    ensures Submits([Remove("c"), Remove("c")],
                    [Removed(map["a" := 1]), Removed(map["a" := 1, "c" := 1]), Removed(map["a" := 1, "c" := 2])])
  {
    FirstRemove("a");
    assert Bump(map["a" := 1], "c") == map["a" := 1, "c" := 1];
    assert Bump(map["a" := 1, "c" := 1], "c") == map["a" := 1, "c" := 2];
    NextRemove(map["a" := 1], "c", map["a" := 1, "c" := 1]);
    NextRemove(map["a" := 1, "c" := 1], "c", map["a" := 1, "c" := 2]);
  }

  // ---- What the readers see ----

  /** Whatever the map order, `kept` is what is left of the two clocks. */
  ghost predicate Settles(ours: Clock, theirs: Clock, kept: Clock) {
    forall r :: Resolves(ours, theirs, r) ==> r == kept
  }

  lemma WinSettles(c: Clock, d: Clock)
    requires c == d || Beats(c, d) || Beats(d, c)
    ensures Settles(c, d, Win(c, d))
  {
    forall r | Resolves(c, d, r) ensures r == Win(c, d) { SettledOnce(c, d, r); }
  }

  /** Wherever both sides have an add clock, it is the same one. */
  predicate SameAdds(a: ClockMap, b: ClockMap) {
    forall e :: e in a && e in b ==> a[e] == b[e]
  }

  lemma MergedSet(a: ObjectState, b: ObjectState, r: ObjectState, e: string, c: Clock, d: Clock, kept: Clock)
    requires a.ASet? && b.ASet? && MergeOf(a, b, r) && SameAdds(a.s.adds, b.s.adds)
    requires a.s.removes == map[e := c] && b.s.removes == map[e := d] && Settles(c, d, kept)
    ensures r == ASet(SetState(a.s.key, a.s.adds + b.s.adds, map[e := kept], Lub(a.s.timestamp, b.s.timestamp)))
  {
    MergedAdds(a.s.adds, b.s.adds, r.s.adds);
    MergedRemove(e, c, d, kept, r.s.removes);
  }

  lemma MergedAdds(a: ClockMap, b: ClockMap, r: ClockMap)
    requires ClockMapMerge(a, b, r) && SameAdds(a, b)
    ensures r == a + b
  {
    forall x | x in r ensures r[x] == (a + b)[x] { assert ElementMerge(a, b, x, r[x]); }
  }

  lemma MergedRemove(e: string, c: Clock, d: Clock, kept: Clock, r: ClockMap)
    requires ClockMapMerge(map[e := c], map[e := d], r) && Settles(c, d, kept)
    ensures r == map[e := kept]
  {
    assert ElementMerge(map[e := c], map[e := d], e, r[e]);
  }

  /** Of two removals, the clock that wins is kept. */
  lemma Applied(adds: ClockMap, ours: Clock, t: Clock, adds': ClockMap, theirs: Clock, t': Clock, kept: Clock,
                st: StoreState)
    requires var before := Users(adds, map[EVE := ours], t);
             SyncOf(Export(before), Users(adds', map[EVE := theirs], t'), before, st)
    requires SameAdds(adds, adds') && Settles(ours, theirs, kept)
    ensures st == Users(adds + adds', map[EVE := kept], Lub(t, t'))
  {
    var before, msg := Users(adds, map[EVE := ours], t), Users(adds', map[EVE := theirs], t');
    OneSet(before, msg, st);
    MergedUsers(adds, ours, t, adds', theirs, t', kept, st[USERS]);
    assert st == map[USERS := st[USERS]];
  }

  function UserSet(adds: ClockMap, removal: Clock, t: Clock): ObjectState {
    ASet(SetState(USERS, adds, map[EVE := removal], t))
  }

  lemma MergedUsers(adds: ClockMap, ours: Clock, t: Clock, adds': ClockMap, theirs: Clock, t': Clock, kept: Clock,
                    r: ObjectState)
    requires MergeOf(UserSet(adds, ours, t), UserSet(adds', theirs, t'), r)
    requires SameAdds(adds, adds') && Settles(ours, theirs, kept)
    ensures r == UserSet(adds + adds', kept, Lub(t, t'))
  {
    MergedSet(UserSet(adds, ours, t), UserSet(adds', theirs, t'), r, EVE, ours, theirs, kept);
  }

  lemma OneSet(before: StoreState, msg: StoreState, st: StoreState)
    requires SyncOf(Export(before), msg, before, st)
    requires before.Keys == {USERS} == msg.Keys && before[USERS].Key() == USERS && Mergeable(before[USERS], msg[USERS])
    ensures st.Keys == {USERS} && MergeOf(before[USERS], msg[USERS], st[USERS])
  {
    assert Export(before) == before;
    forall k ensures k in st <==> k == USERS { assert Synced(before, msg, before, st, k); }
    assert Synced(before, msg, before, st, USERS);
  }

  lemma FirstApplied(msg: StoreState, st: StoreState)
    requires SyncOf(Export(map[]), msg, map[], st)
    ensures st == msg
  {
    forall k ensures (k in st <==> k in msg) && (k in msg ==> st[k] == msg[k]) {
      assert Synced(Export(map[]), msg, map[], st, k);
    }
  }

  /** Three removal clocks that beat each other in a circle, and an add clock between two of them. */
  ghost predicate Muddle(add: Clock, x: Clock, y: Clock, z: Clock) {
    Beats(x, y) && Beats(y, z) && Beats(z, x) && Less(x, add) && !Less(z, add)
  }

  /** The states of the three nodes. */
  function ThreeStates(add: Clock, x: Clock, y: Clock, z: Clock): seq<StoreState> {
    [Users(map[EVE := add], map[EVE := x], add), Removed(y), Removed(z)]
  }

  /** The same states in another order. */
  function ThreeStatesTurned(add: Clock, x: Clock, y: Clock, z: Clock): seq<StoreState> {
    [Removed(y), Removed(z), Users(map[EVE := add], map[EVE := x], add)]
  }

  lemma FirstHides(add: Clock, x: Clock, y: Clock, z: Clock, sts: seq<StoreState>)
    requires Muddle(add, x, y, z) && Receives(ThreeStates(add, x, y, z), sts) && sts[0] == map[]
    ensures Shown(sts[3], USERS) == {}
  {
    var adds, none: ClockMap := map[EVE := add], map[];
    BeatsAsymmetric(z, x);
    WinSettles(x, y);
    WinSettles(x, z);
    FirstApplied(Users(adds, map[EVE := x], add), sts[1]);
    Applied(adds, x, add, none, y, y, x, sts[2]);
    assert adds + none == adds;
    Applied(adds, x, Lub(add, y), none, z, z, z, sts[3]);
  }

  lemma TurnedShows(add: Clock, x: Clock, y: Clock, z: Clock, sts: seq<StoreState>)
    requires Muddle(add, x, y, z) && Receives(ThreeStatesTurned(add, x, y, z), sts) && sts[0] == map[]
    ensures Shown(sts[3], USERS) == {EVE}
  {
    var adds, none: ClockMap := map[EVE := add], map[];
    BeatsAsymmetric(x, y);
    WinSettles(y, z);
    WinSettles(y, x);
    FirstApplied(Removed(y), sts[1]);
    Applied(none, y, y, none, z, z, y, sts[2]);
    assert none + none == none && none + adds == adds;
    Applied(none, y, Lub(y, z), adds, x, add, x, sts[3]);
  }

  /** Two empty nodes that apply the same three states, each of which nodes reach by accepted operations
      (above), in different orders: one lists the element, the other does not. */
  lemma SameStatesDifferentReaders(sts: seq<StoreState>, sts': seq<StoreState>)
    requires var c: Clock := map["a" := 1, "c" := 2];
             && Receives([AddedBack(), Removed(map["b" := 5]), Removed(c)], sts) && sts[0] == map[]
             && Receives([Removed(map["b" := 5]), Removed(c), AddedBack()], sts') && sts'[0] == map[]
    ensures Shown(sts[3], USERS) == {} && Shown(sts'[3], USERS) == {EVE}
  {
    Circle();
    var add: Clock, x: Clock, y: Clock, z: Clock := map["a" := 2], map["a" := 1], map["b" := 5],
      map["a" := 1, "c" := 2];
    assert x["a"] != add["a"] && "c" in z && Less(x, add);
    FirstHides(add, x, y, z, sts);
    TurnedShows(add, x, y, z, sts');
  }

  // ---- Two nodes that never agree ----

  /** Both merge the other's snapshot, over and over. */
  ghost predicate Exchanges(bs: seq<StoreState>, cs: seq<StoreState>) {
    |bs| == |cs| && forall i :: 0 < i < |bs| ==> PairSync(bs[i - 1], cs[i - 1], bs[i], cs[i])
  }

  /** Concurrent clocks with one and the same primary node: each side keeps the other's. */
  lemma KeepsTheirs(c: Clock, d: Clock, p: string)
    requires Concurrent(c, d) && forall n :: IsPrimary(c, n) || IsPrimary(d, n) ==> n == p
    ensures Settles(c, d, d)
  {
    if Before(p, p) { BeforeAsymmetric(p, p); }
  }

  const BY_B: Clock := map["a" := 2, "b" := 1]
  const BY_C: Clock := map["a" := 2, "c" := 1]
  const BACK: Clock := map["a" := 2, "b" := 2]

  lemma RemovalsTie()
    ensures Settles(BY_B, BY_C, BY_C) && Settles(BY_C, BY_B, BY_B) && Less(BY_B, BACK) && !Less(BY_C, BACK)
  {
    assert "b" in BY_B && "b" !in BY_C && "c" in BY_C && "c" !in BY_B && "c" !in BACK;
    assert BY_B["a"] == BY_C["a"] == 2 && BY_B["b"] == 1 == BY_C["c"];
    KeepsTheirs(BY_B, BY_C, "a");
    KeepsTheirs(BY_C, BY_B, "a");
    assert BY_B["b"] != BACK["b"];
  }

  /** What node b holds before the first exchange, ... */
  function Restored(): StoreState {
    Users(map[EVE := BACK], map[EVE := BY_B], BACK)
  }

  /** ... and what a node that keeps the given removal holds after it. */
  function Divided(removal: Clock): StoreState {
    Users(map[EVE := BACK], map[EVE := removal], Lub(BACK, BY_C))
  }

  lemma DividedReads()
    ensures Shown(Divided(BY_B), USERS) == {EVE} && Shown(Divided(BY_C), USERS) == {}
  {
    RemovalsTie();
  }

  /** Node a removes an element twice, and nodes b and c apply its state. Then b removes the element and adds
      it back, and c removes it. No operation carries a clock. */
  lemma TwoNodesReach()
    ensures var r := Removed(map["a" := 2]);
            && Submits([Remove("a"), Remove("a")], [map[], Removed(map["a" := 1]), r])
              && SyncOf(Export(map[]), r, map[], r)
            && Submits([Remove("b"), Add("b")], [r, Removed(BY_B), Restored()])
            && Submits([Remove("c")], [r, Removed(BY_C)])
  {
    FirstRemove("a");
    assert Bump(map["a" := 1], "a") == map["a" := 2] && Bump(map["a" := 2], "c") == BY_C;
    assert Bump(map["a" := 2], "b") == BY_B && Bump(BY_B, "b") == BACK;
    NextRemove(map["a" := 1], "a", map["a" := 2]);
    NextRemove(map["a" := 2], "b", BY_B);
    AddBack(BY_B, "b", BACK);
    NextRemove(map["a" := 2], "c", BY_C);
  }

  lemma ExportUsers(adds: ClockMap, removes: ClockMap, t: Clock)
    ensures Export(Users(adds, removes, t)) == Users(adds, removes, t)
  {
  }

  lemma FirstExchange(b: StoreState, c: StoreState)
    requires PairSync(Restored(), Removed(BY_C), b, c)
    ensures b == Divided(BY_C) && c == Divided(BY_B)
  {
    RemovalsTie();
    var adds, none: ClockMap := map[EVE := BACK], map[];
    assert adds + none == adds == none + adds;
    ExportUsers(adds, map[EVE := BY_B], BACK);
    ExportUsers(none, map[EVE := BY_C], BY_C);
    Applied(adds, BY_B, BACK, none, BY_C, BY_C, BY_C, b);
    Applied(none, BY_C, BY_C, adds, BY_B, BACK, BY_B, c);
    LubLaws(BACK, BY_C, BY_C);
  }

  lemma NextExchange(ours: Clock, theirs: Clock, b: StoreState, c: StoreState)
    requires Settles(ours, theirs, theirs) && Settles(theirs, ours, ours)
    requires PairSync(Divided(ours), Divided(theirs), b, c)
    ensures b == Divided(theirs) && c == Divided(ours)
  {
    var adds: ClockMap, t := map[EVE := BACK], Lub(BACK, BY_C);
    assert adds + adds == adds;
    ExportUsers(adds, map[EVE := ours], t);
    ExportUsers(adds, map[EVE := theirs], t);
    Applied(adds, ours, t, adds, theirs, t, theirs, b);
    Applied(adds, theirs, t, adds, ours, t, ours, c);
    LubLaws(t, t, t);
  }

  function Kept(n: nat, odd: Clock, even: Clock): Clock {
    if n % 2 == 1 then odd else even
  }

  lemma {:induction false} TheySwap(bs: seq<StoreState>, cs: seq<StoreState>, n: nat)
    requires Exchanges(bs, cs) && 0 < n < |bs| && bs[0] == Restored() && cs[0] == Removed(BY_C)
    ensures bs[n] == Divided(Kept(n, BY_C, BY_B)) && cs[n] == Divided(Kept(n, BY_B, BY_C))
  {
    if n == 1 {
      FirstExchange(bs[1], cs[1]);
    } else {
      TheySwap(bs, cs, n - 1);
      RemovalsTie();
      NextExchange(Kept(n - 1, BY_C, BY_B), Kept(n - 1, BY_B, BY_C), bs[n], cs[n]);
    }
  }

  /** However often the two nodes exchange their states, and whatever the map orders, they differ: of the
      two, one lists the element and the other does not, and at each exchange they swap. */
  lemma TwoNodesNeverAgree(bs: seq<StoreState>, cs: seq<StoreState>, n: nat)
    requires Exchanges(bs, cs) && 0 < n < |bs| && bs[0] == Restored() && cs[0] == Removed(BY_C)
    ensures Shown(bs[n], USERS) == if n % 2 == 1 then {} else {EVE}
    ensures Shown(cs[n], USERS) == if n % 2 == 1 then {EVE} else {}
  {
    TheySwap(bs, cs, n);
    DividedReads();
  }
}
