/** Vector clocks as values: the causal order, its least upper bound, and the
    rule that picks a winner between two clocks recorded for one element. */
module Clocks {
  import opened Strings

  /** Node ID to logical time. A missing node lies below an explicit 0. */
  type Clock = map<string, nat>

  predicate Leq(a: Clock, b: Clock) {
    forall n :: n in a ==> n in b && a[n] <= b[n]
  }

  predicate Less(a: Clock, b: Clock) {
    Leq(a, b) && a != b
  }

  predicate Concurrent(a: Clock, b: Clock) {
    !Leq(a, b) && !Leq(b, a)
  }

  /** What `Compare` answers: 1, -1, or 0 for equal and for concurrent clocks. */
  function Order(a: Clock, b: Clock): int {
    if Less(b, a) then 1 else if Less(a, b) then -1 else 0
  }

  lemma LeqAntisymmetric(a: Clock, b: Clock)
    requires Leq(a, b) && Leq(b, a)
    ensures a == b
  {
  }

  /** `Compare` is the sign of a strict partial order: its answers mirror when
      the arguments swap, 1 is transitive, and 0 is exactly equal or concurrent. */
  lemma OrderLaws(a: Clock, b: Clock, c: Clock)
    ensures Order(a, b) == -Order(b, a)
    ensures Order(a, a) == 0
    ensures Order(a, b) == 1 && Order(b, c) == 1 ==> Order(a, c) == 1
    ensures Order(a, b) == 0 <==> a == b || Concurrent(a, b)
    ensures Order(a, b) == 1 <==> Leq(b, a) && a != b
  {
    if Leq(a, b) && Leq(b, a) { LeqAntisymmetric(a, b); }
    if Less(b, a) && Less(c, b) && a == c { LeqAntisymmetric(a, b); }
  }

  /** Pointwise maximum. */
  function Lub(a: Clock, b: Clock): Clock {
    map n | n in a.Keys + b.Keys ::
      if n !in b then a[n] else if n !in a || b[n] > a[n] then b[n] else a[n]
  }

  /** `Merge` yields the least clock above both arguments. */
  lemma LubIsLeast(a: Clock, b: Clock, c: Clock)
    ensures Leq(a, Lub(a, b)) && Leq(b, Lub(a, b))
    ensures Leq(Lub(a, b), c) <==> Leq(a, c) && Leq(b, c)
  {
  }

  /** Hence it is commutative, associative and idempotent, and absorbs what lies below. */
  lemma LubLaws(a: Clock, b: Clock, c: Clock)
    ensures Lub(a, b) == Lub(b, a)
    ensures Lub(Lub(a, b), c) == Lub(a, Lub(b, c))
    ensures Lub(a, a) == a
    ensures Leq(a, b) <==> Lub(a, b) == b
  {
    LubAssociates(a, b, c);
    LubAbsorbs(a, b);
    LubIsLeast(a, b, Lub(b, a));
    LubIsLeast(b, a, Lub(a, b));
    LubIsLeast(a, b, Lub(a, b));
    LubIsLeast(b, a, Lub(b, a));
    LeqAntisymmetric(Lub(a, b), Lub(b, a));
    LubAbsorbs(a, a);
  }

  lemma LubAbsorbs(a: Clock, b: Clock)
    ensures Leq(a, b) <==> Lub(a, b) == b
  {
  }

  lemma LubAssociates(a: Clock, b: Clock, c: Clock)
    ensures Lub(Lub(a, b), c) == Lub(a, Lub(b, c))
  {
  }

  /** `Increment`. */
  function Bump(a: Clock, node: string): Clock {
    a[node := if node in a then a[node] + 1 else 1]
  }

  lemma BumpIsAbove(a: Clock, node: string)
    ensures Less(a, Bump(a, node))
  {
  }

  /** It is the least clock above a in which the node has ticked; a node that is missing begins at 1. */
  lemma BumpIsLeast(a: Clock, node: string, c: Clock)
    ensures Leq(Bump(a, node), c) <==> Leq(a, c) && node in c && c[node] > (if node in a then a[node] else 0)
    ensures Order(Bump(a, node), a) == 1
  {
    BumpIsAbove(a, node);
  }

  /** `Prune`: keep the active nodes only. */
  function Restrict(a: Clock, active: set<string>): Clock {
    map n | n in a && n in active :: a[n]
  }

  /** That is the greatest clock below a that mentions active nodes only. */
  lemma RestrictIsGreatest(a: Clock, active: set<string>, c: Clock)
    ensures Leq(c, Restrict(a, active)) <==> Leq(c, a) && c.Keys <= active
  {
  }

  lemma RestrictMonotone(a: Clock, b: Clock, active: set<string>)
    requires Leq(a, b)
    ensures Leq(Restrict(a, active), Restrict(b, active))
  {
  }

  // ---- Primary node ----

  /** The nodes `extractNodeID` can return: every node with the largest entry, for
      map iteration order decides between them, or "" when no entry is positive. */
  ghost predicate IsPrimary(c: Clock, n: string) {
    if forall k :: k in c ==> c[k] == 0 then n == ""
    else n in c && c[n] > 0 && forall k :: k in c ==> c[k] <= c[n]
  }

  lemma {:induction false} PrimaryExists(c: Clock) returns (n: string)
    ensures IsPrimary(c, n)
  {
    if c == map[] {
      n := "";
    } else {
      var k :| k in c;
      var rest := c - {k};
      n := PrimaryExists(rest);
      assert forall j :: j in c ==> j == k || j in rest;
      if forall j :: j in rest ==> rest[j] == 0 {
        n := if c[k] == 0 then "" else k;
      } else if c[k] > c[n] {
        n := k;
      }
    }
  }

  /** Exactly one node can be returned. */
  ghost predicate Determinate(c: Clock) {
    forall m, n :: IsPrimary(c, m) && IsPrimary(c, n) ==> m == n
  }

  // ---- Conflict resolution ----

  /** r may be what set merge keeps when it holds `ours` and receives `theirs`. */
  ghost predicate Resolves(ours: Clock, theirs: Clock, r: Clock) {
    if Less(ours, theirs) then r == theirs
    else if Less(theirs, ours) then r == ours
    else exists m, n :: IsPrimary(ours, m) && IsPrimary(theirs, n)
                        && r == if Before(m, n) then ours else theirs
  }

  /** Every primary of a precedes every primary of b. */
  ghost predicate PrimaryBefore(a: Clock, b: Clock) {
    forall m, n :: IsPrimary(a, m) && IsPrimary(b, n) ==> Before(m, n)
  }

  /** a is kept against b, whichever side it comes from. */
  ghost predicate Beats(a: Clock, b: Clock) {
    Less(b, a) || (Concurrent(a, b) && PrimaryBefore(a, b))
  }

  /** Both argument orders, and every map iteration order, keep the same clock. */
  ghost predicate OrderIndependent(a: Clock, b: Clock) {
    forall r, t :: Resolves(a, b, r) && Resolves(b, a, t) ==> r == t
  }

  lemma BeatsAsymmetric(a: Clock, b: Clock)
    requires Beats(a, b)
    ensures !Beats(b, a) && a != b
  {
    if Less(b, a) && Less(a, b) { LeqAntisymmetric(a, b); }
    if PrimaryBefore(a, b) && PrimaryBefore(b, a) {
      var m := PrimaryExists(a);
      var n := PrimaryExists(b);
      BeforeAsymmetric(m, n);
    }
  }

  /** Some winner always exists, and it is one of the two. */
  lemma ResolvesTotal(a: Clock, b: Clock) returns (r: Clock)
    ensures Resolves(a, b, r)
  {
    var m := PrimaryExists(a);
    var n := PrimaryExists(b);
    r := if Less(a, b) then b else if Less(b, a) then a else if Before(m, n) then a else b;
  }

  /** The exact condition for order independence. */
  lemma OrderIndependentIff(a: Clock, b: Clock)
    ensures OrderIndependent(a, b) <==> a == b || Beats(a, b) || Beats(b, a)
  {
    if a == b || Beats(a, b) || Beats(b, a) {
      forall r, t | Resolves(a, b, r) && Resolves(b, a, t) ensures r == t {
        SettledOnce(a, b, r);
        SettledOnce(b, a, t);
        if Beats(a, b) { BeatsAsymmetric(a, b); }
      }
    } else {
      // Neither side's primaries all come first, so each clock can be kept.
      var m, n :| IsPrimary(a, m) && IsPrimary(b, n) && !Before(m, n);
      var m', n' :| IsPrimary(a, m') && IsPrimary(b, n') && !Before(n', m');
      assert Resolves(a, b, b);
      assert Resolves(b, a, a);
    }
  }

  /** The winner between two clocks whose order does not matter. */
  ghost function Win(a: Clock, b: Clock): Clock {
    if Beats(a, b) then a else b
  }

  lemma SettledOnce(a: Clock, b: Clock, r: Clock)
    requires a == b || Beats(a, b) || Beats(b, a)
    ensures Resolves(a, b, r) <==> r == Win(a, b)
  {
    var m := PrimaryExists(a);
    var n := PrimaryExists(b);
    if Beats(b, a) { BeatsAsymmetric(b, a); }
    if Beats(a, b) { BeatsAsymmetric(a, b); }
    if Concurrent(a, b) && PrimaryBefore(b, a) {
      forall m, n | IsPrimary(a, m) && IsPrimary(b, n) ensures !Before(m, n) {
        BeforeAsymmetric(n, m);
      }
    }
  }

  /** For clocks with a unique largest entry: equal, ordered, or different primary nodes. */
  lemma DeterminateIff(a: Clock, b: Clock, m: string, n: string)
    requires Determinate(a) && IsPrimary(a, m)
    requires Determinate(b) && IsPrimary(b, n)
    ensures OrderIndependent(a, b) <==> a == b || Less(a, b) || Less(b, a) || m != n
  {
    OrderIndependentIff(a, b);
    BeforeTotal(m, n);
    if m == n && Before(m, n) { BeforeAsymmetric(m, n); }
    if Leq(a, b) && Leq(b, a) { LeqAntisymmetric(a, b); }
  }

  // ---- When resolution is a join ----

  /** On C the winner is the maximum of a strict total order. */
  ghost predicate Linear(C: iset<Clock>) {
    && (forall a, b :: a in C && b in C ==> a == b || Beats(a, b) || Beats(b, a))
    && (forall a, b, c :: a in C && b in C && c in C && Beats(a, b) && Beats(b, c) ==> Beats(a, c))
  }

  /** Resolution on C ignores argument order and grouping. */
  ghost predicate OrderFree(C: iset<Clock>) {
    && (forall a, b :: a in C && b in C ==> OrderIndependent(a, b))
    && (forall a, b, c :: a in C && b in C && c in C ==> Win(Win(a, b), c) == Win(a, Win(b, c)))
  }

  /** Set merge gives the same clock in any order and grouping exactly when the
      clocks in play form a strict total order under `Beats`. */
  lemma OrderFreeIff(C: iset<Clock>)
    ensures OrderFree(C) <==> Linear(C)
  {
    if OrderFree(C) {
      forall a, b | a in C && b in C ensures a == b || Beats(a, b) || Beats(b, a) {
        OrderIndependentIff(a, b);
      }
      forall a, b, c | a in C && b in C && c in C && Beats(a, b) && Beats(b, c) ensures Beats(a, c) {
        assert Win(Win(a, b), c) == Win(a, Win(b, c));
        BeatsAsymmetric(a, b);
      }
    }
    if Linear(C) {
      forall a, b | a in C && b in C ensures OrderIndependent(a, b) {
        OrderIndependentIff(a, b);
      }
      forall a, b, c | a in C && b in C && c in C ensures Win(Win(a, b), c) == Win(a, Win(b, c)) {
        if Beats(a, b) { BeatsAsymmetric(a, b); }
        if Beats(b, c) { BeatsAsymmetric(b, c); }
        if Beats(a, c) { BeatsAsymmetric(a, c); }
      }
    }
  }

  /** The clocks the running node issues: one positive entry. */
  ghost predicate OneEntry(c: Clock) {
    exists p: string, t: nat :: t > 0 && c == map[p := t]
  }

  lemma OneEntryBeats(p: string, s: nat, q: string, t: nat)
    requires s > 0 && t > 0
    ensures Beats(map[p := s], map[q := t]) <==> (p == q && s > t) || Before(p, q)
  {
    var a, b: Clock := map[p := s], map[q := t];
    assert forall n :: IsPrimary(a, n) <==> n == p by { assert p in a && a[p] > 0; }
    assert forall n :: IsPrimary(b, n) <==> n == q by { assert q in b && b[q] > 0; }
    if p == q {
      if Before(p, q) { BeforeAsymmetric(p, q); }
      assert a[p] == s && b[p] == t;
    } else {
      assert p in a && p !in b && q in b && q !in a;
    }
  }

  /** A clock with no positive entry has the empty primary, which precedes every node ID: it beats each concurrent
      clock that has a positive entry, and between two such clocks the argument order decides. */
  lemma NoPositiveEntry(a: Clock, b: Clock)
    requires Concurrent(a, b) && "" !in b && forall n :: n in a ==> a[n] == 0
    ensures Beats(a, b) <==> exists n :: n in b && b[n] > 0
    ensures OrderIndependent(a, b) <==> exists n :: n in b && b[n] > 0
  {
    OrderIndependentIff(a, b);
    var m := PrimaryExists(b);
    if forall n :: n in b ==> b[n] == 0 {
      assert IsPrimary(a, "") && IsPrimary(b, "");
    }
  }

  /** On one-entry clocks resolution is the maximum of a total order. */
  lemma OneEntryLinear()
    ensures Linear(iset c: Clock | OneEntry(c))
  {
    var C := iset c: Clock | OneEntry(c);
    forall a, b | a in C && b in C ensures a == b || Beats(a, b) || Beats(b, a) {
      var p: string, s: nat :| s > 0 && a == map[p := s];
      var q: string, t: nat :| t > 0 && b == map[q := t];
      OneEntryBeats(p, s, q, t);
      OneEntryBeats(q, t, p, s);
      BeforeTotal(p, q);
    }
    forall a, b, c | a in C && b in C && c in C && Beats(a, b) && Beats(b, c) ensures Beats(a, c) {
      var p: string, s: nat :| s > 0 && a == map[p := s];
      var q: string, t: nat :| t > 0 && b == map[q := t];
      var u: string, w: nat :| w > 0 && c == map[u := w];
      OneEntryBeats(p, s, q, t);
      OneEntryBeats(q, t, u, w);
      OneEntryBeats(p, s, u, w);
      if Before(p, q) && Before(q, u) { BeforeTransitive(p, q, u); }
    }
  }

  /** Clocks that are causally ordered among themselves also resolve to their maximum. */
  lemma ChainLinear(C: iset<Clock>)
    requires forall a, b :: a in C && b in C ==> Leq(a, b) || Leq(b, a)
    ensures Linear(C)
  {
    forall a, b, c | a in C && b in C && c in C && Beats(a, b) && Beats(b, c) ensures Beats(a, c) {
      OrderLaws(a, b, c);
    }
  }

  /** Three well-formed clocks that beat each other in a circle: {a:1} beats {b:5} by node ID,
      {b:5} beats {a:1,c:2} by node ID, and {a:1,c:2} beats {a:1} causally. */
  lemma Circle()
    ensures Beats(map["a" := 1], map["b" := 5])
    ensures Beats(map["b" := 5], map["a" := 1, "c" := 2])
    ensures Beats(map["a" := 1, "c" := 2], map["a" := 1])
  {
    var x: Clock, y: Clock, z: Clock := map["a" := 1], map["b" := 5], map["a" := 1, "c" := 2];
    OneEntryBeats("a", 1, "b", 5);
    assert "b" in y && "b" !in z && "a" in z && "a" !in y;
    assert forall n :: IsPrimary(y, n) <==> n == "b" by { assert y["b"] == 5; }
    assert forall n :: IsPrimary(z, n) <==> n == "c" by { assert z["c"] == 2 && z["a"] == 1; }
    assert Before("b", "c");
    assert "c" in z && "c" !in x && Less(x, z);
  }

  /** Grouping matters for them, although each pair is order independent. */
  lemma GroupingMatters()
    ensures var x: Clock, y: Clock, z: Clock := map["a" := 1], map["b" := 5], map["a" := 1, "c" := 2];
            && OrderIndependent(x, y) && OrderIndependent(y, z) && OrderIndependent(x, z)
            && Win(Win(x, y), z) == z && Win(x, Win(y, z)) == x
  {
    var x: Clock, y: Clock, z: Clock := map["a" := 1], map["b" := 5], map["a" := 1, "c" := 2];
    Circle();
    BeatsAsymmetric(z, x);
    OrderIndependentIff(x, y);
    OrderIndependentIff(y, z);
    OrderIndependentIff(x, z);
  }
}
