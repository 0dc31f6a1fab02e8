/** What one public operation does, told in terms of its arguments: which are refused and why, and what an
    accepted operation leaves in the store, entry by entry. */
module Effects {
  import opened Clocks
  import opened Crdts
  import opened Engines

  // ---- Refusals ----

  /** Some character is not one of the tab, the line ends, the vertical tab, the form feed and the blank. */
  predicate HasText(s: string) {
    exists i :: 0 <= i < |s| && s[i] as int !in {9, 10, 11, 12, 13, 32}
  }

  lemma HasTextIff(s: string)
    ensures HasText(s) <==> !Blank(s)
  {
    forall i | 0 <= i < |s|
      ensures s[i] in s && (s[i] as int in {9, 10, 11, 12, 13, 32} <==> s[i] == ' ' || '\t' <= s[i] <= '\r') {
    }
    if c :| c in s && !(c == ' ' || '\t' <= c <= '\r') {
      var i :| 0 <= i < |s| && s[i] == c;
      assert s[i] as int !in {9, 10, 11, 12, 13, 32};
    }
  }

  /** An add or remove is refused exactly for the first of these reasons that applies. */
  lemma SetRefusals(st: StoreState, op: Operation)
    requires op.kind == OpAdd || op.kind == OpRemove
    ensures var (n, k, e) := (op.nodeID, op.key, op.element);
            var text, r := HasText(n) && HasText(k) && HasText(e), Refusal(st, op);
            && (r == Some(NodeIDEmpty) <==> !HasText(n))
            && (r == Some(KeyEmpty) <==> HasText(n) && !HasText(k))
            && (r == Some(ElementEmpty) <==> HasText(n) && HasText(k) && !HasText(e))
            && (r == Some(NodeIDTooLong) <==> text && |n| > 256)
            && (r == Some(KeyTooLong) <==> text && |n| <= 256 && |k| > 256)
            && (r == Some(ElementTooLong) <==> text && |n| <= 256 && |k| <= 256 && |e| > 1024)
            && (r == Some(WrongType) <==> text && |n| <= 256 && |k| <= 256 && |e| <= 1024 && k in st && st[k].ACounter?)
            && (r == None <==> text && |n| <= 256 && |k| <= 256 && |e| <= 1024 && (k in st ==> st[k].ASet?))
  {
    HasTextIff(op.nodeID);
    HasTextIff(op.key);
    HasTextIff(op.element);
  }

  /** And so is an increment. */
  lemma CounterRefusals(st: StoreState, op: Operation)
    requires op.kind == OpCounterInc
    ensures var (n, k, d) := (op.nodeID, op.key, op.value);
            var input, r := HasText(n) && HasText(k) && 1 <= d <= 1000000, Refusal(st, op);
            && (r == Some(NodeIDEmpty) <==> !HasText(n))
            && (r == Some(KeyEmpty) <==> HasText(n) && !HasText(k))
            && (r == Some(DeltaZero) <==> HasText(n) && HasText(k) && d == 0)
            && (r == Some(DeltaTooLarge) <==> HasText(n) && HasText(k) && d > 1000000)
            && (r == Some(NodeIDTooLong) <==> input && |n| > 256)
            && (r == Some(KeyTooLong) <==> input && |n| <= 256 && |k| > 256)
            && (r == Some(WrongType) <==> input && |n| <= 256 && |k| <= 256 && k in st && st[k].ASet?)
            && (r == None <==> input && |n| <= 256 && |k| <= 256 && (k in st ==> st[k].ACounter?))
  {
    HasTextIff(op.nodeID);
    HasTextIff(op.key);
  }

  // ---- Accepted operations ----

  /** d is c with one more for the node, which had nothing or something there. */
  ghost predicate TickedOnce(c: Clock, d: Clock, node: string) {
    && node in d && d[node] == (if node in c then c[node] else 0) + 1
    && forall n :: n != node ==> (n in d <==> n in c) && (n in d ==> d[n] == c[n])
  }

  /** d is the least clock above c and ts. */
  ghost predicate LeastAbove(c: Clock, ts: Clock, d: Clock) {
    forall u :: Leq(d, u) <==> Leq(c, u) && Leq(ts, u)
  }

  /** The timestamp of the object under k; a new object's is empty. */
  function TimestampAt(st: StoreState, k: string): Clock {
    if k !in st then map[] else if st[k].ASet? then st[k].s.timestamp else st[k].c.timestamp
  }

  /** Nothing is refused or accepted with an effect on another key, and refused operations have none at all. */
  lemma OnlyItsKey(st: StoreState, op: Operation)
    ensures forall k :: k != op.key ==> SameAt(st, Submit(st, op), k)
    ensures Refusal(st, op).Some? || op.kind.OpUnknown? ==> Submit(st, op) == st
    ensures op.kind.OpUnknown? ==> Perform(st, op) == Some(st)
  {
  }

  /** The timestamp of an object after an accepted operation on it: without a clock it has ticked once and is strictly
      later, with a clock it is the least one above both. */
  lemma TimestampAfter(st: StoreState, op: Operation)
    requires Refusal(st, op).None? && !op.kind.OpUnknown?
    ensures op.key in Submit(st, op)
    ensures var was, now := TimestampAt(st, op.key), TimestampAt(Submit(st, op), op.key);
            if op.ts == map[] then TickedOnce(was, now, op.nodeID) && Less(was, now) else LeastAbove(was, op.ts, now)
  {
    var was := TimestampAt(st, op.key);
    if op.ts == map[] {
      BumpIsAbove(was, op.nodeID);
      LubAbsorbs(was, Bump(was, op.nodeID));
    } else {
      forall u ensures Leq(Lub(was, op.ts), u) <==> Leq(was, u) && Leq(op.ts, u) { LubIsLeast(was, op.ts, u); }
    }
  }

  /** An accepted increment adds its value to the node's entry, modulo 2^64, and leaves the others. */
  lemma IncrementEffect(st: StoreState, op: Operation)
    requires Refusal(st, op).None? && op.kind == OpCounterInc
    ensures var k, st' := op.key, Submit(st, op);
            && k in st' && st'[k].ACounter?
            && var was: Clock, now := if k in st then st[k].c.counters else map[], st'[k].c.counters;
               && st'[k].c.key == (if k in st then st[k].c.key else k)
               && op.nodeID in now && now[op.nodeID] < U64
               && (exists q: nat ::
                     now[op.nodeID] + q * U64 == (if op.nodeID in was then was[op.nodeID] else 0) + op.value)
               && forall n :: n != op.nodeID ==> (n in now <==> n in was) && (n in now ==> now[n] == was[n])
  {
    var was: Clock := if op.key in st then st[op.key].c.counters else map[];
    var q := WrapIsModular((if op.nodeID in was then was[op.nodeID] else 0) + op.value);
  }

  /** An accepted add or remove records, for its element and its kind only, the supplied clock or, without one, the
      set's ticked timestamp. */
  lemma SetEffect(st: StoreState, op: Operation)
    requires Refusal(st, op).None? && (op.kind == OpAdd || op.kind == OpRemove)
    ensures var k, st' := op.key, Submit(st, op);
            && k in st' && st'[k].ASet?
            && var was, now := if k in st then st[k].s else SetState(k, map[], map[], map[]), st'[k].s;
               && now.key == was.key
               && (op.kind == OpAdd ==> now.removes == was.removes && RecordsAt(was.adds, now.adds, op, now.timestamp))
               && (op.kind == OpRemove ==> now.adds == was.adds
                                           && RecordsAt(was.removes, now.removes, op, now.timestamp))
  {
    var was := TimestampAt(st, op.key);
    if op.ts == map[] {
      BumpIsAbove(was, op.nodeID);
      LubAbsorbs(was, Bump(was, op.nodeID));
    }
  }

  ghost predicate RecordsAt(was: ClockMap, now: ClockMap, op: Operation, timestamp: Clock) {
    && op.element in now && now[op.element] == (if op.ts == map[] then timestamp else op.ts)
    && forall e :: e != op.element ==> (e in now <==> e in was) && (e in now ==> now[e] == was[e])
  }

  /** After an accepted operation its node, or the nodes of its clock, count as active; an increment makes no
      other node active, and none inactive. */
  lemma ActiveAfter(st: StoreState, op: Operation)
    requires Refusal(st, op).None? && !op.kind.OpUnknown?
    ensures var nodes := if op.ts == map[] then {op.nodeID} else op.ts.Keys;
            && nodes <= ActiveNodes(Submit(st, op))
            && (op.kind == OpCounterInc ==> ActiveNodes(Submit(st, op)) == ActiveNodes(st) + nodes)
  {
    var st', k := Submit(st, op), op.key;
    var nodes := if op.ts == map[] then {op.nodeID} else op.ts.Keys;
    assert k in st' && TimestampAt(st', k).Keys == TimestampAt(st, k).Keys + nodes;
    forall n | n in nodes ensures n in ActiveNodes(st') { assert n in NodesOf(st'[k]); }
    if op.kind == OpCounterInc { ActiveAfterIncrement(st, op, nodes); }
  }

  lemma ActiveAfterIncrement(st: StoreState, op: Operation, nodes: set<string>)
    requires Refusal(st, op).None? && op.kind == OpCounterInc
    requires op.key in Submit(st, op)
    requires TimestampAt(Submit(st, op), op.key).Keys == TimestampAt(st, op.key).Keys + nodes
    ensures ActiveNodes(Submit(st, op)) == ActiveNodes(st) + nodes
  {
    var st', k := Submit(st, op), op.key;
    OnlyItsKey(st, op);
    assert NodesOf(st'[k]) == (if k in st then NodesOf(st[k]) else {}) + nodes;
    forall n | n in ActiveNodes(st') ensures n in ActiveNodes(st) + nodes {
      var j :| j in st' && n in NodesOf(st'[j]);
      assert j != k ==> SameAt(st, st', j);
    }
    forall n | n in ActiveNodes(st) ensures n in ActiveNodes(st') {
      var j :| j in st && n in NodesOf(st[j]);
      assert j != k ==> SameAt(st, st', j);
      assert n in NodesOf(st'[j]);
    }
    forall n | n in nodes ensures n in ActiveNodes(st') { assert n in NodesOf(st'[k]); }
  }
}
