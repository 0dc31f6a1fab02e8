/** The byte-bounded queue of recent operations. Queued operations share their clocks with
    live sets, so their size can shrink after it was added to the running total. */
module OperationQueue {
  import opened Clocks
  import opened Crdts
  import opened VectorClocks

  datatype Op = Op(kind: OpKind, key: string, nodeID: string, element: string, value: nat, ts: VectorClock?)

  ghost function OpState(op: Op): Operation
    reads op.ts
  {
    Operation(op.kind, op.key, op.nodeID, op.element, op.value, if op.ts == null then map[] else op.ts.entries)
  }

  // ---- Sizes ----

  /** Bytes of each clock entry: string header and text, value, and map overhead. */
  function EntrySizes(c: Clock): Clock {
    map n | n in c :: 16 + |n| + 8 + 8
  }

  ghost function ApproxSize(op: Operation): nat {
    144 + |op.key| + |op.nodeID| + |op.element| + Sum(EntrySizes(op.ts)) + 2 * |op.ts|
  }

  /** The size of the k oldest operations of a queue. */
  ghost function Oldest(queue: seq<Operation>, k: nat): nat
    requires k <= |queue|
  {
    if k == 0 then 0 else Oldest(queue, k - 1) + ApproxSize(queue[k - 1])
  }

  ghost function Footprint(queue: seq<Operation>): nat {
    Oldest(queue, |queue|)
  }

  lemma {:induction false} OldestSplit(queue: seq<Operation>, k: nat, n: nat)
    requires k <= n <= |queue|
    ensures Oldest(queue, n) == Oldest(queue, k) + Oldest(queue[k..], n - k)
  {
    if n > k { OldestSplit(queue, k, n - 1); }
  }

  lemma {:induction false} OldestPrefix(queue: seq<Operation>, op: Operation, k: nat)
    requires k <= |queue|
    ensures Oldest(queue + [op], k) == Oldest(queue, k)
  {
    if k > 0 { OldestPrefix(queue, op, k - 1); }
  }

  lemma FootprintPush(queue: seq<Operation>, op: Operation)
    ensures Footprint(queue + [op]) == Footprint(queue) + ApproxSize(op)
  {
    OldestPrefix(queue, op, |queue|);
  }

  /** Every operation takes at least 144 bytes. */
  lemma {:induction false} OldestAtLeast(queue: seq<Operation>, k: nat)
    requires k <= |queue|
    ensures Oldest(queue, k) >= 144 * k
  {
    if k > 0 { OldestAtLeast(queue, k - 1); }
  }

  /** The size of an operation, step by step: 144 bytes for an empty one, ... */
  lemma SizeOfEmpty(kind: OpKind, value: nat)
    ensures ApproxSize(Operation(kind, "", "", "", value, map[])) == 144
  {
    assert EntrySizes(map[]) == map[];
  }

  /** ... one byte for every character of the key, the node ID and the element, nothing for the kind and the
      value, and for every node in the clock 34 bytes and its name, whatever its time. */
  lemma SizeLaw(op: Operation, kind: OpKind, value: nat, c: char, n: string, t: nat)
    ensures ApproxSize(op.(kind := kind, value := value)) == ApproxSize(op)
    ensures ApproxSize(op.(key := op.key + [c])) == ApproxSize(op) + 1
    ensures ApproxSize(op.(nodeID := op.nodeID + [c])) == ApproxSize(op) + 1
    ensures ApproxSize(op.(element := op.element + [c])) == ApproxSize(op) + 1
    ensures ApproxSize(op.(ts := op.ts[n := t])) == ApproxSize(op) + if n in op.ts then 0 else 34 + |n|
  {
    var sizes := EntrySizes(op.ts[n := t]);
    assert sizes == EntrySizes(op.ts)[n := 32 + |n|];
    SumUpdate(EntrySizes(op.ts), n, 32 + |n|);
    assert |op.ts[n := t]| == |op.ts| + if n in op.ts then 0 else 1;
  }

  /** b is a with some clocks pruned. */
  ghost predicate Shrunk(a: Operation, b: Operation) {
    b == a.(ts := b.ts) && forall n :: n in b.ts ==> n in a.ts
  }

  lemma SizeShrinks(a: Operation, b: Operation)
    requires Shrunk(a, b)
    ensures ApproxSize(b) <= ApproxSize(a)
  {
    SumMonotone(EntrySizes(b.ts), EntrySizes(a.ts));
    Fewer(b.ts.Keys, a.ts.Keys);
    assert |b.ts| == |b.ts.Keys| && |a.ts| == |a.ts.Keys|;
  }

  lemma {:induction false} Fewer(a: set<string>, b: set<string>)
    requires a <= b
    ensures |a| <= |b|
  {
    if a != {} {
      var x :| x in a;
      Fewer(a - {x}, b - {x});
    }
  }

  /** Pruning clocks never makes a queue larger. */
  lemma {:induction false} OldestShrinks(a: seq<Operation>, b: seq<Operation>, k: nat)
    requires k <= |a| == |b| && forall i :: 0 <= i < |a| ==> Shrunk(a[i], b[i])
    ensures Oldest(b, k) <= Oldest(a, k)
  {
    if k > 0 {
      SizeShrinks(a[k - 1], b[k - 1]);
      OldestShrinks(a, b, k - 1);
    }
  }

  /** What eviction must drop from a queue with this recorded total: the first k, where k is the
      least number that brings the total within capacity, or everything. */
  ghost predicate EvictsLeast(queue: seq<Operation>, total: int, cap: int, k: nat) {
    && k <= |queue|
    && (k == |queue| || total - Oldest(queue, k) <= cap)
    && forall j :: 0 <= j < k ==> total - Oldest(queue, j) > cap
  }

  /** What appending op to a queue leaves when k operations are evicted: the least number that will do,
      and for each of them the recorded bytes drop by its present size. */
  ghost predicate Appended(queue: seq<Operation>, bytes: int, op: Operation, cap: int, k: int,
                           queue': seq<Operation>, bytes': int) {
    var all, total := queue + [op], bytes + ApproxSize(op);
    0 <= k && EvictsLeast(all, total, cap, k) && bytes' == total - Oldest(all, k) && queue' == all[k..]
  }

  /** What the recorded bytes exceed the queue's present size by is kept by every append: capacity that pruning
      has cost never comes back. */
  lemma SlackKept(queue: seq<Operation>, bytes: int, op: Operation, cap: int, k: int, queue': seq<Operation>,
                  bytes': int)
    requires Appended(queue, bytes, op, cap, k, queue', bytes')
    ensures bytes' - Footprint(queue') == bytes - Footprint(queue)
  {
    FootprintPush(queue, op);
    OldestSplit(queue + [op], k, |queue| + 1);
  }

  /** An append empties the queue, the new operation included, exactly if that operation and the excess
      together are above capacity. */
  lemma AppendEmptiesIff(queue: seq<Operation>, bytes: int, op: Operation, cap: int, k: int, queue': seq<Operation>,
                         bytes': int)
    requires Appended(queue, bytes, op, cap, k, queue', bytes')
    ensures queue' == [] <==> bytes - Footprint(queue) + ApproxSize(op) > cap
  {
    var all, total, n := queue + [op], bytes + ApproxSize(op), |queue|;
    FootprintPush(queue, op);
    OldestPrefix(queue, op, n);
    if k <= n {
      OldestSplit(all, k, n + 1);
      OldestSplit(all, k, n);
    }
  }

  /** So once the excess leaves less than the 144 bytes of the smallest operation, every append does. */
  lemma NothingFits(queue: seq<Operation>, bytes: int, op: Operation, cap: int, k: int, queue': seq<Operation>,
                    bytes': int)
    requires Appended(queue, bytes, op, cap, k, queue', bytes') && bytes - Footprint(queue) + 144 > cap
    ensures queue' == [] && bytes' - Footprint(queue') + 144 > cap
  {
    AppendEmptiesIff(queue, bytes, op, cap, k, queue', bytes');
    SlackKept(queue, bytes, op, cap, k, queue', bytes');
  }

  /** Sizes only add up, so it is enough to look at the last operation dropped. */
  lemma {:induction false} LeastByLast(queue: seq<Operation>, total: int, cap: int, k: nat)
    requires k <= |queue| && (k > 0 ==> total - Oldest(queue, k - 1) > cap)
    ensures forall j :: 0 <= j < k ==> total - Oldest(queue, j) > cap
  {
    if k > 1 {
      LeastByLast(queue, total, cap, k - 1);
    }
  }

  /** `approxSize`: field by field, then over the clock's nodes in any order. */
  method MeasureOp(op: Op) returns (n: int)
    ensures n == ApproxSize(OpState(op))
  {
    n := 8;
    n := n + 8 + 1 + 7 + 8 + 8 + 8 + 8 + 24;
    n := n + 16 + |op.key|;
    n := n + 16 + |op.nodeID|;
    n := n + 16 + |op.element|;
    n := n + 8 + 8;
    var ts: Clock := if op.ts == null then map[] else op.ts.entries;
    var todo := ts;
    ghost var fixed := n;
    while todo.Keys != {}
      invariant forall k :: k in todo ==> k in ts && todo[k] == ts[k]
      invariant n + Sum(EntrySizes(todo)) == fixed + Sum(EntrySizes(ts))
      decreases todo.Keys
    {
      var nodeID :| nodeID in todo.Keys;
      SumPicks(EntrySizes(todo), nodeID);
      assert EntrySizes(todo) - {nodeID} == EntrySizes(todo - {nodeID});
      todo := todo - {nodeID};
      n := n + 16 + |nodeID| + 8 + 8;
    }
    assert EntrySizes(todo) == map[];
    n := n + |ts| * 2;
  }

  // ---- The queue ----

  ghost function ClocksIn(ops: seq<Op>): set<VectorClock> {
    set i | 0 <= i < |ops| && ops[i].ts != null :: ops[i].ts
  }

  lemma ClocksPush(ops: seq<Op>, op: Op)
    ensures ClocksIn(ops + [op]) == ClocksIn(ops) + if op.ts == null then {} else {op.ts}
  {
    var queue := ops + [op];
    forall c | c in ClocksIn(ops) ensures c in ClocksIn(queue) {
      var i :| 0 <= i < |ops| && ops[i].ts == c;
      assert queue[i].ts == c;
    }
    assert queue[|ops|] == op;
  }

  /** all holds the current values of the operations, in order. */
  ghost predicate Mirrors(ops: seq<Op>, all: seq<Operation>)
    reads ClocksIn(ops)
  {
    |all| == |ops| && forall i :: 0 <= i < |ops| ==> OpState(ops[i]) == all[i]
  }

  ghost function StatesTo(ops: seq<Op>, k: nat): (r: seq<Operation>)
    requires k <= |ops|
    reads ClocksIn(ops)
    ensures |r| == k
  {
    if k == 0 then [] else StatesTo(ops, k - 1) + [OpState(ops[k - 1])]
  }

  /** The current values of the operations. */
  ghost function States(ops: seq<Op>): (r: seq<Operation>)
    reads ClocksIn(ops)
    ensures |r| == |ops|
  {
    StatesTo(ops, |ops|)
  }

  lemma {:induction false} StatesAt(ops: seq<Op>, k: nat, i: nat)
    requires i < k <= |ops|
    ensures StatesTo(ops, k)[i] == OpState(ops[i])
  {
    if i < k - 1 { StatesAt(ops, k - 1, i); }
  }

  lemma MirrorsStates(ops: seq<Op>, all: seq<Operation>)
    ensures Mirrors(ops, all) <==> all == States(ops)
  {
    forall i | 0 <= i < |ops| ensures States(ops)[i] == OpState(ops[i]) {
      StatesAt(ops, |ops|, i);
    }
    if Mirrors(ops, all) {
      assert forall i :: 0 <= i < |ops| ==> all[i] == States(ops)[i];
    }
  }

  /** Operations whose clocks are not touched keep their values. */
  twostate lemma StillStates(x: (seq<Op>, seq<Operation>, set<VectorClock>))
    requires x.2 == ClocksIn(x.0) && unchanged(x.2) && old(States(x.0)) == x.1
    ensures States(x.0) == x.1
  {
  }

  lemma StatesPush(ops: seq<Op>, op: Op)
    ensures States(ops + [op]) == States(ops) + [OpState(op)]
  {
    MirrorsPush(ops, op);
    MirrorsStates(ops + [op], States(ops) + [OpState(op)]);
  }

  lemma Rejoin<T>(s: seq<T>, k: nat)
    requires k <= |s|
    ensures s[..k] + s[k..] == s
  {
  }

  lemma MirrorsPush(ops: seq<Op>, op: Op)
    ensures Mirrors(ops + [op], States(ops) + [OpState(op)])
  {
    MirrorsStates(ops, States(ops));
  }

  lemma Slide<T>(s: seq<T>, k: nat)
    requires k < |s|
    ensures s[k..][0] == s[k] && s[..k] + [s[k]] == s[..k + 1] && s[k..][1..] == s[k + 1..]
  {
  }

  class OpHeap {
    var ops: seq<Op>
    var bytes: int
    const capBytes: int
    /** Every clock the queued operations refer to. */
    ghost var clocks: set<VectorClock>

    /** The recorded bytes cover the queue's current size, and are within capacity unless
        the queue is empty; queued clocks are never ticked. */
    ghost predicate Valid()
      reads this, clocks
    {
      && ClocksIn(ops) <= clocks
      && (forall c :: c in clocks ==> !c.ticking)
      && Footprint(States(ops)) <= bytes
      && (ops == [] || bytes <= capBytes)
    }

    constructor (capBytes: int)
      ensures Valid() && ops == [] && bytes == 0 && clocks == {} && this.capBytes == capBytes
    {
      this.capBytes := capBytes;
      ops, bytes, clocks := [], 0, {};
    }

    method Append(op: Op) returns (evicted: seq<Op>)
      requires Valid() && (op.ts != null ==> !op.ts.ticking)
      modifies this
      ensures Valid() && clocks == old(clocks) + if op.ts == null then {} else {op.ts}
      ensures evicted + ops == old(ops) + [op]
      ensures Appended(old(States(ops)), old(bytes), old(OpState(op)), capBytes, |evicted|, States(ops), bytes)
    {
      ghost var all, queue := States(ops) + [OpState(op)], ops + [op];
      MirrorsPush(ops, op);
      ClocksPush(ops, op);
      FootprintPush(States(ops), OpState(op));
      var size := MeasureOp(op);
      assert Footprint(all) <= bytes + size;
      Push(op, size, queue, all);
      evicted := Evict(queue, all);
      Rejoin(queue, |evicted|);
    }

    method Evict(ghost queue: seq<Op>, ghost all: seq<Operation>) returns (evicted: seq<Op>)
      requires ops == queue && Mirrors(queue, all) && Footprint(all) <= bytes
      requires ClocksIn(queue) <= clocks && forall c :: c in clocks ==> !c.ticking
      modifies `ops, `bytes
      ensures Valid()
      ensures |evicted| <= |queue| && evicted == queue[..|evicted|] && ops == queue[|evicted|..]
      ensures EvictsLeast(all, old(bytes), capBytes, |evicted|) && bytes == old(bytes) - Oldest(all, |evicted|)
      ensures States(ops) == all[|evicted|..]
    {
      assert forall c :: c in ClocksIn(queue) ==> c as object != this;
      evicted := EvictOverflow(all);
      Settled(this, queue, all, |evicted|);
    }

    method Push(op: Op, size: int, ghost queue: seq<Op>, ghost all: seq<Operation>)
      requires queue == ops + [op] && Mirrors(queue, all)
      modifies this
      ensures ops == queue && bytes == old(bytes) + size && Mirrors(queue, all)
      ensures clocks == old(clocks) + if op.ts == null then {} else {op.ts}
    {
      assert forall c :: c in ClocksIn(queue) ==> c as object != this;
      ops := ops + [op];
      bytes := bytes + size;
      clocks := clocks + if op.ts == null then {} else {op.ts};
    }

    /** The loop of Append: drop from the front while the recorded bytes exceed capacity. */
    method EvictOverflow(ghost all: seq<Operation>) returns (evicted: seq<Op>)
      requires Mirrors(ops, all)
      modifies `ops, `bytes
      ensures |evicted| <= |old(ops)| && evicted == old(ops)[..|evicted|] && ops == old(ops)[|evicted|..]
      ensures EvictsLeast(all, old(bytes), capBytes, |evicted|)
      ensures bytes == old(bytes) - Oldest(all, |evicted|)
    {
      ghost var queue, total, k := ops, bytes, 0;
      evicted := [];
      while bytes > capBytes && |ops| > 0
        invariant k <= |queue| && evicted == queue[..k] && ops == queue[k..]
        invariant bytes == total - Oldest(all, k)
        invariant k > 0 ==> total - Oldest(all, k - 1) > capBytes
        decreases |ops|
      {
        Slide(queue, k);
        var front := DropFront();
        evicted, k := evicted + [front], k + 1;
      }
      LeastByLast(all, total, capBytes, k);
    }

    method DropFront() returns (front: Op)
      requires ops != []
      modifies `ops, `bytes
      ensures front == old(ops)[0] && ops == old(ops)[1..]
      ensures bytes == old(bytes) - ApproxSize(OpState(front))
    {
      front := ops[0];
      var oldSize := MeasureOp(front);
      bytes := bytes - oldSize;
      ops := ops[1..];
    }

    /** `Stats`: what it reports bounds the queue's present size from above and its length from below. */
    method Stats() returns (length: nat, recorded: int)
      requires Valid()
      ensures length == |ops| && recorded == bytes
      ensures 144 * length <= Footprint(States(ops)) <= recorded
      ensures length == 0 || recorded <= capBytes
      ensures capBytes >= 0 ==> length <= capBytes / 144
    {
      length, recorded := |ops|, bytes;
      OldestAtLeast(States(ops), |ops|);
    }
  }

  /** What is left after dropping the k oldest operations is covered by what is left of the total. */
  lemma Settled(h: OpHeap, queue: seq<Op>, all: seq<Operation>, k: nat)
    requires Mirrors(queue, all) && k <= |queue| && h.ops == queue[k..]
    requires ClocksIn(queue) <= h.clocks && forall c :: c in h.clocks ==> !c.ticking
    requires Footprint(all) - Oldest(all, k) <= h.bytes && (h.ops == [] || h.bytes <= h.capBytes)
    ensures h.Valid() && States(h.ops) == all[k..]
  {
  }

  /** A queue never holds more than capBytes/144 operations, and its current size is within
      capacity, also when pruning made the recorded bytes too large. */
  lemma QueueBound(h: OpHeap)
    requires h.Valid() && h.capBytes >= 0
    ensures |h.ops| <= h.capBytes / 144 && Footprint(States(h.ops)) <= h.capBytes
  {
    OldestAtLeast(States(h.ops), |h.ops|);
  }
}
