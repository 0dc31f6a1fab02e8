/** What the general results say about the running protocol: its histories are runs of the network,
    and its states are ones on which merging is a join. */
module Running {
  import opened Clocks
  import opened Crdts
  import opened Engines
  import opened LocalData
  import opened Network
  import opened Convergence
  import opened Absorption
  import opened Protocol

  /** The keys under which running nodes keep sets. */
  ghost function SampleSets(): iset<string> {
    iset{SAMPLE_SET}
  }

  /** The network's part in one step of the protocol, if it has any. */
  function StepOf(x: System, a: Action): Option<Step>
    requires a.TickAdd? || a.TickInc? ==> a.p in x.pubs && |a.p| >= 6
  {
    match a
    case TickAdd(p) => Some(Local(p, AddOp(p, x.pubs[p].counter)))
    case TickInc(p) => Some(Local(p, IncOp(p, x.pubs[p].counter)))
    case Publish(p, out, _) => if out then Some(Snapshot(p)) else None
    case Exchange(s) => Some(s)
  }

  lemma ActIsStep(x: System, a: Action, x': System)
    requires Act(x, a, x')
    ensures a.TickAdd? || a.TickInc? ==> a.p in x.pubs && |a.p| >= 6
    ensures match StepOf(x, a) case None => x'.net == x.net case Some(s) => Next(x.net, s, x'.net)
  {
  }

  ghost predicate AllDisciplined(steps: seq<Step>) {
    forall s :: s in steps ==> Disciplined(s, SampleSets())
  }

  predicate AtomicAction(a: Action) {
    a.Exchange? ==> a.s.Snapshot? || a.s.Apply?
  }

  lemma StepIsDisciplined(x: System, a: Action)
    requires a.TickAdd? || a.TickInc? ==> a.p in x.pubs && |a.p| >= 6
    requires AtomicAction(a)
    ensures match StepOf(x, a) case None => true case Some(s) => Disciplined(s, SampleSets())
  {
  }

  /** An accepted tick, as `AddLocalData` performs it, is the protocol's two local steps. */
  lemma TickIsTwoSteps(n: Net, p: string, i: nat)
    requires p in n.replicas && |p| >= 6 && Refusal(n.replicas[p].store, AddOp(p, i)).None?
    ensures var n1 := AfterLocal(n, p, AddOp(p, i));
            p in n1.replicas && p in AfterLocal(n1, p, IncOp(p, i)).replicas
            && AfterLocal(n1, p, IncOp(p, i)).replicas[p].store == AfterLocalData(n.replicas[p].store, p, i)
  {
  }

  lemma RunExtends(ns: seq<Net>, steps: seq<Step>, s: Step, n: Net)
    requires IsRun(ns, steps) && Next(ns[|steps|], s, n)
    ensures IsRun(ns + [n], steps + [s])
  {
    forall i: nat | i < |steps + [s]| ensures NextAt(ns + [n], steps + [s], i) {
      if i < |steps| { assert NextAt(ns, steps, i); }
    }
  }

  /** Every history of the protocol is a run of the network, so whatever holds in all runs holds here. */
  lemma {:induction false} HistoryIsRun(xs: seq<System>, acts: seq<Action>, i: nat)
      returns (ns: seq<Net>, steps: seq<Step>)
    requires IsHistory(xs, acts) && i < |xs|
    ensures IsRun(ns, steps) && ns[|steps|] == xs[i].net
    ensures Atomic(acts) ==> AllDisciplined(steps)
  {
    if i == 0 {
      ns, steps := StartRuns(xs[i]);
    } else {
      var before := i - 1;
      ns, steps := HistoryIsRun(xs, acts, before);
      ns, steps := NextExtends(xs, acts, before, i, ns, steps);
    }
  }

  lemma StartRuns(x: System) returns (ns: seq<Net>, steps: seq<Step>)
    requires Start(x)
    ensures IsRun(ns, steps) && ns[|steps|] == x.net && AllDisciplined(steps)
  {
    ns, steps := [x.net], [];
  }

  lemma NextExtends(xs: seq<System>, acts: seq<Action>, i: nat, next: nat, ns: seq<Net>, steps: seq<Step>)
    returns (ns': seq<Net>, steps': seq<Step>)
    requires IsHistory(xs, acts) && i < |acts| && next == i + 1 && IsRun(ns, steps) && ns[|steps|] == xs[i].net
    ensures IsRun(ns', steps') && ns'[|steps'|] == xs[next].net
    ensures AllDisciplined(steps) && Atomic(acts) ==> AllDisciplined(steps')
  {
    assert ActAt(xs, acts, i) && (Atomic(acts) ==> AtomicAction(acts[i]));
    ns', steps' := ActExtends(ns, steps, xs[i], acts[i], xs[next]);
  }

  lemma ActExtends(ns: seq<Net>, steps: seq<Step>, x: System, a: Action, x': System)
      returns (ns': seq<Net>, steps': seq<Step>)
    requires IsRun(ns, steps) && ns[|steps|] == x.net && Act(x, a, x')
    ensures IsRun(ns', steps') && ns'[|steps'|] == x'.net
    ensures AllDisciplined(steps) && AtomicAction(a) ==> AllDisciplined(steps')
  {
    ActIsStep(x, a, x');
    if AtomicAction(a) { StepIsDisciplined(x, a); }
    ns', steps' := ns, steps;
    if StepOf(x, a).Some? {
      var s := StepOf(x, a).value;
      RunExtends(ns, steps, s, x'.net);
      ns', steps' := ns + [x'.net], steps + [s];
    }
  }

  /** In atomic histories the counter of node p's ticks at any node shows at most what it shows at p, ... */
  lemma CountersFollowTheirNode(xs: seq<System>, acts: seq<Action>, t: nat, p: string, r: string, k: string)
    requires IsHistory(xs, acts) && t < |xs| && Atomic(acts) && xs[t].net.increments <= 18446744073709
    requires p in xs[t].net.replicas && r in xs[t].net.replicas
    ensures var n := xs[t].net;
            && CounterEntry(n.replicas[r].store, k, p) <= CounterEntry(n.replicas[p].store, k, p)
            && CounterEntry(n.replicas[p].store, k, p) == Credited(n.replicas[p].log, |n.replicas[p].log|, k)
  {
    var ns, steps := HistoryIsRun(xs, acts, t);
    RunsAreExact(ns, steps, SampleSets(), |steps|);
    OwnEntryIsLargest(xs[t].net, SampleSets(), r, p, k);
  }

  /** ... and with split applies too no counter shows more than was added to it, or wraps. */
  lemma CountersStayBounded(xs: seq<System>, acts: seq<Action>, t: nat, p: string, k: string)
    requires IsHistory(xs, acts) && t < |xs| && p in xs[t].net.replicas
    requires k in xs[t].net.replicas[p].store && xs[t].net.replicas[p].store[k].ACounter?
    ensures var n, c := xs[t].net, xs[t].net.replicas[p].store[k].c.counters;
            && Sum(c) <= Sum(IssuedFor(n.issued, k)) <= n.increments * 1000000
            && (n.increments <= 18446744073709 ==> Wrap(Sum(c)) == Sum(c))
  {
    var ns, steps := HistoryIsRun(xs, acts, t);
    CounterNeverExceedsIssued(ns, steps, |steps|, p, k);
  }

  // ---- Convergence ----

  lemma TickedFits(issued: Clock, st: StoreState)
    requires AllGood(st, TickedBy(issued, false))
    ensures StoreFits(OneEntryFamily(), SampleSets(), st)
  {
  }

  /** Strong eventual consistency of the running protocol: take a node's state and messages out of any
      history, split applies included. Applied from that state in any order and with any repetition,
      they lead to the same store as at any other node that has the same states to work with. */
  lemma RunningNodesConverge(xs: seq<System>, acts: seq<Action>, t: nat, p: string, q: string,
                             msgs: seq<StoreState>, sts: seq<StoreState>, msgs': seq<StoreState>, sts': seq<StoreState>)
    requires IsHistory(xs, acts) && t < |xs| && p in xs[t].net.replicas && q in xs[t].net.replicas
    requires Receives(msgs, sts) && sts[0] == xs[t].net.replicas[p].store
    requires Receives(msgs', sts') && sts'[0] == xs[t].net.replicas[q].store
    requires forall m :: m in msgs + msgs' ==> exists sent :: sent in xs[t].net.sent && sent.data == m
    requires forall m :: m == sts[0] || m in msgs <==> m == sts'[0] || m in msgs'
    ensures sts[|msgs|] == sts'[|msgs'|]
  {
    var fam, sets, issued := OneEntryFamily(), SampleSets(), Issued(xs[t]);
    InvariantHolds(xs, acts, t, false);
    forall m | m in msgs + msgs' ensures StoreFits(fam, sets, m) {
      var sent :| sent in xs[t].net.sent && sent.data == m;
      TickedFits(issued, sent.data);
    }
    TickedFits(issued, sts[0]);
    TickedFits(issued, sts'[0]);
    OneEntryFamilyLinear(sets);
    ConvergesIff(fam, sets);
    assert Delivered(fam, sets, msgs, sts) && Delivered(fam, sets, msgs', sts');
    assert SameStates(msgs, sts, msgs', sts');
  }
}
