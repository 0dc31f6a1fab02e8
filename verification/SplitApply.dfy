/** When applying a message piecemeal amounts to applying it in one step. */
module SplitApply {
  import opened Crdts
  import opened Engines
  import opened Network
  import opened Convergence
  import Nodes

  /** Node p is applying m, begun in store st, and has installed all keys but todo. */
  ghost predicate PartlyApplied(r: Replica, st: StoreState, data: StoreState) {
    && r.applying.Some? && r.applying.value.snap == Export(st) && r.applying.value.msg == data
    && Nodes.SyncedBut(Export(st), data, st, r.store, r.applying.value.todo)
  }

  lemma InstallTurn(r: Replica, st: StoreState, data: StoreState, key: string, st': StoreState)
    requires PartlyApplied(r, st, data) && key in r.applying.value.todo && key in data
    requires SyncOf(Export(st), map k | k in data && k == key :: data[k], r.store, st')
    ensures Nodes.SyncedBut(Export(st), data, st, st', r.applying.value.todo - {key})
  {
    var one, todo := map k | k in data && k == key :: data[k], r.applying.value.todo;
    forall k | k != key ensures SameAt(r.store, st', k) {
      assert Synced(Export(st), one, r.store, st', k);
    }
    assert Synced(Export(st), one, r.store, st', key) && SameAt(st, r.store, key);
    forall k | k !in todo - {key} ensures Synced(Export(st), data, st, st', k) {
      if k != key { assert Synced(Export(st), data, st, r.store, k) && SameAt(r.store, st', k); }
    }
    forall k | k in todo - {key} ensures SameAt(st, st', k) {
      assert SameAt(st, r.store, k) && SameAt(r.store, st', k);
    }
  }

  /** What node p may do meanwhile. */
  predicate Quiet(s: Step, p: string) {
    s.p == p ==> s.Install? || s.Snapshot?
  }

  lemma StepUnderway(n: Net, s: Step, n': Net, p: string, st: StoreState, data: StoreState)
    requires Next(n, s, n') && p in n.replicas && Quiet(s, p)
    requires PartlyApplied(n.replicas[p], st, data) && n.replicas[p].applying.value.todo <= data.Keys
    ensures p in n'.replicas && PartlyApplied(n'.replicas[p], st, data)
      && n'.replicas[p].applying.value.todo <= data.Keys
  {
    if s.p == p && s.Install? {
      InstallTurn(n.replicas[p], st, data, s.key, n'.replicas[p].store);
    }
  }

  lemma {:induction false} StaysUnderway(ns: seq<Net>, steps: seq<Step>, t: nat, u: nat, p: string, m: Packet)
    requires IsRun(ns, steps) && t < u < |ns| && steps[t] == Begin(p, m)
    requires forall j :: t < j < u ==> Quiet(steps[j], p)
    ensures p in ns[t].replicas && p in ns[u].replicas
    ensures PartlyApplied(ns[u].replicas[p], ns[t].replicas[p].store, m.data)
      && ns[u].replicas[p].applying.value.todo <= m.data.Keys
  {
    assert NextAt(ns, steps, u - 1);
    if t < u - 1 {
      StaysUnderway(ns, steps, t, u - 1, p, m);
      StepUnderway(ns[u - 1], steps[u - 1], ns[u], p, ns[t].replicas[p].store, m.data);
    }
  }

  /** A node that neither writes, prunes nor applies anything else between beginning and finishing has
      applied the message as if in one step, whatever the other nodes did in between. */
  lemma UndisturbedApplyIsAtomic(ns: seq<Net>, steps: seq<Step>, t: nat, u: nat, p: string, m: Packet)
    requires IsRun(ns, steps) && t < u < |steps| && steps[t] == Begin(p, m) && steps[u] == Finish(p)
    requires forall j :: t < j < u ==> Quiet(steps[j], p)
    ensures p in ns[t].replicas && p in ns[u + 1].replicas
    ensures var st := ns[t].replicas[p].store; SyncOf(Export(st), m.data, st, ns[u + 1].replicas[p].store)
  {
    StaysUnderway(ns, steps, t, u, p, m);
    assert NextAt(ns, steps, u);
    var st, r := ns[t].replicas[p].store, ns[u].replicas[p];
    forall k ensures Synced(Export(st), m.data, st, r.store, k) {
      assert k !in r.applying.value.todo;
    }
  }

  // ---- A key's kind ----

  function Increment(k: string): Operation {
    Operation(OpCounterInc, k, "n", "", 1, map[])
  }

  function Insert(k: string): Operation {
    Operation(OpAdd, k, "n", "e", 0, map[])
  }

  lemma BothAccepted(k: string)
    requires !Blank(k) && |k| <= 256
    ensures Refusal(map[], Increment(k)).None? && Refusal(map[], Insert(k)).None?
    ensures k in Submit(map[], Increment(k)) && Submit(map[], Increment(k))[k].ACounter?
    ensures k in Submit(map[], Insert(k)) && Submit(map[], Insert(k))[k].ASet?
  {
    assert "n"[0] in "n" && "e"[0] in "e";
  }

  /** It does happen, under any key: q counts and sends, p begins to apply, creates a set and installs the counter. */
  lemma KindCanChange(n: Net, p: string, q: string, k: string)
      returns (m: Packet, n1: Net, n2: Net, n3: Net, n4: Net, n5: Net)
    requires Init(n) && p in n.replicas && q in n.replicas && p != q && !Blank(k) && |k| <= 256
    ensures Next(n, Local(q, Increment(k)), n1) && Next(n1, Snapshot(q), n2) && Next(n2, Begin(p, m), n3)
    ensures Next(n3, Local(p, Insert(k)), n4) && Next(n4, Install(p, k), n5)
    ensures p in n4.replicas && k in n4.replicas[p].store && n4.replicas[p].store[k].ASet?
    ensures p in n5.replicas && k in n5.replicas[p].store && n5.replicas[p].store[k].ACounter?
  {
    BothAccepted(k);
    n1 := AfterLocal(n, q, Increment(k));
    var data := Export(n1.replicas[q].store);
    m := Packet(q, data, n1.replicas[q].known);
    n2 := n1.(sent := n1.sent + {m});
    n3 := n2.(replicas := n2.replicas[p := n2.replicas[p].(applying := Some(Applying(map[], data, data.Keys)))]);
    n4 := AfterLocal(n3, p, Insert(k));
    var r := n4.replicas[p];
    var st := SomeStore(map[], map j | j in data && j == k :: data[j], r.store);
    assert Synced(map[], map j | j in data && j == k :: data[j], r.store, st, k);
    n5 := n4.(replicas :=
              n4.replicas[p := r.(store := st,
                                  applying := Some(r.applying.value.(todo := r.applying.value.todo - {k})))]);
  }
}
