/** What whole histories of operations leave in a store. */
module Histories {
  import opened Clocks
  import opened Crdts
  import opened Engines
  import opened Network

  // ---- A set's timestamp lies above all its clocks ----

  ghost predicate Dominated(s: SetState) {
    && (forall e :: e in s.adds ==> Leq(s.adds[e], s.timestamp))
    && (forall e :: e in s.removes ==> Leq(s.removes[e], s.timestamp))
  }

  ghost function DominatedSets(): Good {
    (k: string, o: ObjectState) => o.ASet? ==> Dominated(o.s)
  }

  lemma DominatedAfter(s: SetState, op: Operation)
    requires Dominated(s)
    ensures Dominated(SetAfter(s, op))
  {
  }

  lemma DominatedMerge(a: ObjectState, b: ObjectState, r: ObjectState)
    requires a.ASet? && b.ASet? && Dominated(a.s) && Dominated(b.s) && MergeOf(a, b, r)
    ensures Dominated(r.s)
  {
    LubIsLeast(a.s.timestamp, b.s.timestamp, r.s.timestamp);
    forall e | e in r.s.adds ensures Leq(r.s.adds[e], r.s.timestamp) {
      assert ElementMerge(a.s.adds, b.s.adds, e, r.s.adds[e]);
    }
    forall e | e in r.s.removes ensures Leq(r.s.removes[e], r.s.timestamp) {
      assert ElementMerge(a.s.removes, b.s.removes, e, r.s.removes[e]);
    }
  }

  lemma DominatedClosed()
    ensures Closed(DominatedSets()) && PruneClosed(DominatedSets())
  {
    var good := DominatedSets();
    forall k, a, b, r | good(k, a) && good(k, b) && MergeOf(a, b, r) ensures good(k, r) {
      if a.ASet? { DominatedMerge(a, b, r); }
    }
    forall k, o, active | good(k, o) ensures good(k, Pruned(o, active)) {
    }
    forall k, a, b, active | good(k, a) && CopyPruned(a, b, active) ensures good(k, b) {
    }
  }

  /** In every run, with operations that carry any clock or none, split applies and pruning: the
      timestamp of every set, stored or sent, dominates every clock the set records. */
  lemma {:induction false} TimestampDominates(ns: seq<Net>, steps: seq<Step>, i: nat)
    requires IsRun(ns, steps) && i < |ns|
    ensures Everywhere(ns[i], DominatedSets())
  {
    var good := DominatedSets();
    if i == 0 {
      InitGood(ns[0], good);
    } else {
      TimestampDominates(ns, steps, i - 1);
      DominatedClosed();
      var n, s, n' := ns[i - 1], steps[i - 1], ns[i];
      assert NextAt(ns, steps, i - 1);
      if s.Local? {
        SubmitDominated(n.replicas[s.p].store, s.op);
        LocalKeeps(n, s.p, s.op, good);
      } else if s.Prune? {
        PruneKeeps(n, s, n', good);
      } else {
        StepKeeps(n, s, n', good);
      }
    }
  }

  lemma SubmitDominated(st: StoreState, op: Operation)
    requires AllGood(st, DominatedSets())
    ensures AllGood(Submit(st, op), DominatedSets())
  {
    var st', good := Submit(st, op), DominatedSets();
    if st' != st {
      var o := if op.key in st then st[op.key] else NewObject(op);
      assert op.key in st ==> good(op.key, st[op.key]);
      if o.ASet? { DominatedAfter(o.s, op); }
      forall k | k in st' ensures good(k, st'[k]) {
        if k != op.key { assert good(k, st[k]); }
      }
    }
  }

  // ---- Operations without a clock take effect ----

  /** On such a set, an add without a clock shows its element, a remove without a clock hides it, and no
      operation, with a clock or without, changes whether another element is visible. */
  lemma UnclockedTakesEffect(s: SetState, op: Operation, e: string)
    requires Dominated(s) && (op.kind == OpAdd || op.kind == OpRemove)
    ensures e != op.element ==> (Visible(SetAfter(s, op), e) <==> Visible(s, e))
    ensures op.ts == map[] ==> (Visible(SetAfter(s, op), op.element) <==> op.kind == OpAdd)
  {
  }

  /** An operation with a clock takes effect by comparison with the opposite clock only: whatever was
      recorded for the same kind is overwritten, an older clock included. */
  lemma ClockedTakesEffectIff(s: SetState, op: Operation)
    requires (op.kind == OpAdd || op.kind == OpRemove) && op.ts != map[]
    ensures op.kind == OpAdd ==>
      (Visible(SetAfter(s, op), op.element) <==> op.element !in s.removes || Less(s.removes[op.element], op.ts))
    ensures op.kind == OpRemove ==>
      (Visible(SetAfter(s, op), op.element) <==> op.element in s.adds && Less(op.ts, s.adds[op.element]))
  {
  }

  /** So an add may hide the element it adds: with some clock it does, exactly if a remove with a
      non-empty clock is recorded. */
  lemma AddCanHide(s: SetState, e: string, node: string)
    requires Visible(s, e)
    ensures (exists ts: Clock :: ts != map[] && !Visible(SetAfter(s, Operation(OpAdd, s.key, node, e, 0, ts)), e))
            <==> e in s.removes && s.removes[e] != map[]
  {
    if e in s.removes && s.removes[e] != map[] {
      assert !Visible(SetAfter(s, Operation(OpAdd, s.key, node, e, 0, s.removes[e])), e);
    }
  }

  /** And a remove may show the element it removes: with some clock it does, exactly if some non-empty
      clock lies strictly below the recorded add. */
  lemma RemoveCanShow(s: SetState, e: string, node: string)
    requires e in s.adds
    ensures (exists ts: Clock :: ts != map[] && Visible(SetAfter(s, Operation(OpRemove, s.key, node, e, 0, ts)), e))
            <==> s.adds[e] != map[] && forall n :: s.adds[e] != map[n := 0]
  {
    var add := s.adds[e];
    if add != map[] && forall n :: add != map[n := 0] {
      var n :| n in add;
      var ts: Clock := map[n := 0];
      assert n in ts && Leq(ts, add) && add != map[n := 0];
      assert Visible(SetAfter(s, Operation(OpRemove, s.key, node, e, 0, ts)), e);
    }
    if ts: Clock :| ts != map[] && Visible(SetAfter(s, Operation(OpRemove, s.key, node, e, 0, ts)), e) {
      assert Less(ts, add);
      var k :| k in ts;
      assert k in add;
      forall n ensures add != map[n := 0] {
        if add == map[n := 0] { LeqAntisymmetric(ts, add); }
      }
    }
  }

  // ---- A lone store ----

  /** Replaying everything a node accepted, generated clocks included, reproduces its store, as long
      as it has installed no merged object and pruned no clock; refused operations left no trace. */
  lemma {:induction false} ReplayReproduces(ns: seq<Net>, steps: seq<Step>, i: nat, p: string)
    requires IsRun(ns, steps) && i < |ns| && p in ns[i].replicas
    requires forall j :: 0 <= j < i && steps[j].p == p ==> !steps[j].Apply? && !steps[j].Install? && !steps[j].Prune?
    ensures Replay(map[], ns[i].replicas[p].log) == Some(ns[i].replicas[p].store)
  {
    if i > 0 {
      var n, s, n' := ns[i - 1], steps[i - 1], ns[i];
      assert NextAt(ns, steps, i - 1);
      ReplayReproduces(ns, steps, i - 1, p);
      if s.Local? && s.p == p && Refusal(n.replicas[p].store, s.op).None? {
        ReplayAppend(map[], n.replicas[p].log, s.op);
      }
    }
  }

  /** The plain set that results from the adds and removes for key k, one after the other. */
  function Members(log: seq<Operation>, k: string): set<string> {
    if log == [] then {}
    else After(Members(log[..|log| - 1], k), log[|log| - 1], k)
  }

  function After(members: set<string>, op: Operation, k: string): set<string> {
    if op.key == k && op.kind == OpAdd then members + {op.element}
    else if op.key == k && op.kind == OpRemove then members - {op.element}
    else members
  }

  /** A lone store whose set operations carry no clocks is a family of plain sets, and `GetElements`
      lists exactly their members. */
  lemma {:induction false} LoneStoreIsSets(log: seq<Operation>, k: string)
    requires Replay(map[], log).Some? && forall op :: op in log && op.kind != OpCounterInc ==> op.ts == map[]
    ensures var st := Replay(map[], log).value;
            AllGood(st, DominatedSets()) && Shown(st, k) == Members(log, k)
  {
    if log != [] {
      var front, op := log[..|log| - 1], log[|log| - 1];
      assert log == front + [op];
      ReplayFront(map[], front, op);
      ReplayAppend(map[], front, op);
      assert op in log && forall o :: o in front ==> o in log;
      LoneStoreIsSets(front, k);
      PerformOne(Replay(map[], front).value, op, Replay(map[], log).value, k);
    }
  }

  lemma {:induction false} ReplayFront(st: StoreState, log: seq<Operation>, op: Operation)
    requires Replay(st, log + [op]).Some?
    decreases |log|
    ensures Replay(st, log).Some?
  {
    if log != [] {
      assert (log + [op])[1..] == log[1..] + [op];
      ReplayFront(Perform(st, log[0]).value, log[1..], op);
    }
  }

  lemma PerformOne(st: StoreState, op: Operation, st': StoreState, k: string)
    requires AllGood(st, DominatedSets()) && Perform(st, op) == Some(st')
      && (op.kind != OpCounterInc ==> op.ts == map[])
    ensures AllGood(st', DominatedSets()) && Shown(st', k) == After(Shown(st, k), op, k)
  {
    var good := DominatedSets();
    if !op.kind.OpUnknown? {
      var o := if op.key in st then st[op.key] else NewObject(op);
      assert op.key in st ==> good(op.key, st[op.key]);
      assert st' == st[op.key := ObjectAfter(o, op)];
      if o.ASet? {
        DominatedAfter(o.s, op);
        ShownAfter(o.s, op);
      }
      forall j | j in st' ensures good(j, st'[j]) {
        if j != op.key { assert good(j, st[j]); }
      }
    }
  }

  lemma ShownAfter(s: SetState, op: Operation)
    requires Dominated(s) && op.ts == map[] && (op.kind == OpAdd || op.kind == OpRemove)
    ensures VisibleElements(SetAfter(s, op)) == After(VisibleElements(s), op, op.key)
  {
  }

  // ---- Pruning ----

  /** What pruning with some set of active nodes can do to an element: a hidden element can be made
      visible exactly if its add is not at or below its remove, a visible one can be hidden exactly
      if it has a remove record. */
  lemma PruningCanReveal(s: SetState, e: string)
    requires e in s.adds && e in s.removes
    ensures (exists active :: Visible(Pruned(ASet(s), active).s, e)) <==> !Leq(s.adds[e], s.removes[e])
  {
    var add, rem := s.adds[e], s.removes[e];
    if Leq(add, rem) {
      forall active ensures !Visible(Pruned(ASet(s), active).s, e) {
        RestrictMonotone(add, rem, active);
        if Less(Restrict(rem, active), Restrict(add, active)) {
          LeqAntisymmetric(Restrict(add, active), Restrict(rem, active));
        }
      }
    } else {
      var n :| n in add && !(n in rem && add[n] <= rem[n]);
      var a, r := Restrict(add, {n}), Restrict(rem, {n});
      assert n in a && a[n] == add[n] && (n in r ==> r[n] == rem[n]);
      assert Visible(Pruned(ASet(s), {n}).s, e);
    }
  }

  lemma PruningCanHide(s: SetState, e: string)
    requires Visible(s, e)
    ensures (exists active :: !Visible(Pruned(ASet(s), active).s, e)) <==> e in s.removes
  {
    if e in s.removes {
      assert Restrict(s.removes[e], {}) == map[] == Restrict(s.adds[e], {});
      assert !Visible(Pruned(ASet(s), {}).s, e);
    }
  }

  /** Pruning changes no counter, no key and no set of recorded elements, ... */
  lemma PruningKeeps(st: StoreState, active: set<string>, k: string)
    requires k in st
    ensures k in PrunedStore(st, active)
    ensures var o, o' := st[k], PrunedStore(st, active)[k];
            && o'.ASet? == o.ASet? && o'.Key() == o.Key()
            && (o.ACounter? ==> Wrap(Sum(o'.c.counters)) == Wrap(Sum(o.c.counters)))
            && (o.ASet? ==> o'.s.adds.Keys == o.s.adds.Keys && o'.s.removes.Keys == o.s.removes.Keys)
  {
  }

  /** ... and pruning with the nodes in use changes nothing at all; fewer nodes than those do change something. */
  lemma PruningActiveNodes(st: StoreState, active: set<string>)
    ensures PrunedStore(st, active) == st <==> ActiveNodes(st) <= active
  {
    if ActiveNodes(st) <= active {
      forall k | k in st ensures PrunedStore(st, active)[k] == st[k] {
        ObjectUnchanged(st, k, active);
      }
    } else {
      var n :| n in ActiveNodes(st) && n !in active;
      var k :| k in st && n in NodesOf(st[k]);
      assert n !in NodesOf(PrunedStore(st, active)[k]);
    }
  }

  lemma RestrictAll(c: Clock, active: set<string>)
    requires c.Keys <= active
    ensures Restrict(c, active) == c
  {
  }

  lemma ObjectUnchanged(st: StoreState, k: string, active: set<string>)
    requires k in st && ActiveNodes(st) <= active
    ensures Pruned(st[k], active) == st[k]
  {
    var o := st[k];
    assert NodesOf(o) <= active by {
      forall n | n in NodesOf(o) ensures n in active { assert n in ActiveNodes(st); }
    }
    if o.ASet? {
      MapUnchanged(o.s.adds, active);
      MapUnchanged(o.s.removes, active);
      RestrictAll(o.s.timestamp, active);
    } else {
      RestrictAll(o.c.timestamp, active);
    }
  }

  lemma MapUnchanged(m: ClockMap, active: set<string>)
    requires NodesIn(m) <= active
    ensures PruneMap(m, active) == m
  {
    forall e | e in m ensures Restrict(m[e], active) == m[e] {
      forall n | n in m[e] ensures n in active { assert n in NodesIn(m); }
      RestrictAll(m[e], active);
    }
  }
}
