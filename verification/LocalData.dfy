/** What a running node writes on every tick, as operations, and the messages it exchanges. */
module LocalData {
  import opened Strings
  import opened Clocks
  import opened Crdts
  import opened Engines

  const SAMPLE_SET := "sample-set"

  /** The last six characters of a peer ID. */
  function Suffix(nodeID: string): string
    requires |nodeID| >= 6
  {
    nodeID[|nodeID| - 6..]
  }

  function ElementName(nodeID: string, i: nat): string
    requires |nodeID| >= 6
  {
    Suffix(nodeID) + "-" + Decimal(i)
  }

  function CounterKey(nodeID: string): string
    requires |nodeID| >= 6
  {
    Suffix(nodeID) + "-counter"
  }

  /** The clock of a node's i-th tick. */
  function TickClock(nodeID: string, i: nat): Clock {
    map[nodeID := i + 1]
  }

  function AddOp(nodeID: string, i: nat): Operation
    requires |nodeID| >= 6
  {
    Operation(OpAdd, SAMPLE_SET, nodeID, ElementName(nodeID, i), 0, TickClock(nodeID, i))
  }

  function IncOp(nodeID: string, i: nat): Operation
    requires |nodeID| >= 6
  {
    Operation(OpCounterInc, CounterKey(nodeID), nodeID, "", 1, TickClock(nodeID, i))
  }

  /** `AddLocalData`: the increment is skipped when the add is refused. */
  function AfterLocalData(st: StoreState, nodeID: string, i: nat): StoreState
    requires |nodeID| >= 6
  {
    if Refusal(st, AddOp(nodeID, i)).Some? then st
    else Submit(Submit(st, AddOp(nodeID, i)), IncOp(nodeID, i))
  }

  datatype Message = Sync(from: string, data: StoreState) | SyncRequest(from: string)

  // ---- Names ----

  /** Element names determine the peer suffix and the tick. */
  lemma ElementNameInjective(p: string, i: nat, q: string, j: nat)
    requires |p| >= 6 && |q| >= 6 && ElementName(p, i) == ElementName(q, j)
    ensures Suffix(p) == Suffix(q) && i == j
  {
    var a, b := ElementName(p, i), ElementName(q, j);
    assert a[..6] == Suffix(p) && b[..6] == Suffix(q);
    assert a[7..] == Decimal(i) && b[7..] == Decimal(j);
    DecimalInjective(i, j);
  }

  /** What a node whose ID ends in the six characters s writes on its i-th tick. */
  lemma TickWrites(x: string, s: string, i: nat)
    requires |s| == 6
    ensures ElementName(x + s, i) == s + "-" + Decimal(i) && CounterKey(x + s) == s + "-counter"
    ensures AddOp(x + s, i) == Operation(OpAdd, "sample-set", x + s, s + "-" + Decimal(i), 0, map[x + s := i + 1])
    ensures IncOp(x + s, i) == Operation(OpCounterInc, s + "-counter", x + s, "", 1, map[x + s := i + 1])
  {
    assert (x + s)[|x + s| - 6..] == s;
  }

  /** Names are equal exactly if the IDs end alike and the ticks are equal, and counter keys if the IDs end alike. */
  lemma NamesEqualIff(p: string, i: nat, q: string, j: nat)
    requires |p| >= 6 && |q| >= 6
    ensures ElementName(p, i) == ElementName(q, j) <==> p[|p| - 6..] == q[|q| - 6..] && i == j
    ensures CounterKey(p) == CounterKey(q) <==> p[|p| - 6..] == q[|q| - 6..]
  {
    if ElementName(p, i) == ElementName(q, j) { ElementNameInjective(p, i, q, j); }
    assert CounterKey(p)[..6] == Suffix(p) && CounterKey(q)[..6] == Suffix(q);
    assert Suffix(p) == p[|p| - 6..] && Suffix(q) == q[|q| - 6..];
  }

  /** A tick whose add is refused writes nothing; otherwise the increment is submitted after the add, and only
      that is lost when the increment is refused. */
  lemma TickEffect(st: StoreState, nodeID: string, i: nat)
    requires |nodeID| >= 6
    ensures Refusal(st, AddOp(nodeID, i)).Some? ==> AfterLocalData(st, nodeID, i) == st
    ensures Refusal(st, AddOp(nodeID, i)).None? ==>
      var added := Submit(st, AddOp(nodeID, i));
      && (Refusal(added, IncOp(nodeID, i)).Some? ==> AfterLocalData(st, nodeID, i) == added)
      && Replay(st, [AddOp(nodeID, i)] + if Refusal(added, IncOp(nodeID, i)).None? then [IncOp(nodeID, i)] else [])
         == Some(AfterLocalData(st, nodeID, i))
  {
    var add, inc := AddOp(nodeID, i), IncOp(nodeID, i);
    assert [add][1..] == [] && ([add] + [inc])[1..] == [inc] && [inc][1..] == [] && [add] + [] == [add];
    if Refusal(st, add).None? {
      assert Replay(Submit(st, add), []) == Some(Submit(st, add));
      ReplayAppend(st, [add], inc);
    }
  }

  /** A tick below 2^64 always passes validation. */
  lemma TickValidates(nodeID: string, i: nat)
    requires 6 <= |nodeID| <= 256 && !Blank(nodeID) && i < U64
    ensures Validate(AddOp(nodeID, i)).None? && Validate(IncOp(nodeID, i)).None?
    ensures CounterKey(nodeID) != SAMPLE_SET
  {
    NameNotBlank(nodeID, i);
    NameLength(nodeID, i);
    assert |CounterKey(nodeID)| == 14 && |SAMPLE_SET| == 10;
  }

  lemma NameLength(nodeID: string, i: nat)
    requires |nodeID| >= 6 && i < U64
    ensures |ElementName(nodeID, i)| <= 27
  {
    TwentyDigits();
    DecimalLength(i, 20);
  }

  lemma NameNotBlank(nodeID: string, i: nat)
    requires |nodeID| >= 6
    ensures !Blank(ElementName(nodeID, i)) && !Blank(CounterKey(nodeID)) && !Blank(SAMPLE_SET)
  {
    var e, k := ElementName(nodeID, i), CounterKey(nodeID);
    assert e[6] == '-' && e[6] in e && k[6] == '-' && k[6] in k;
    assert SAMPLE_SET[0] == 's' && SAMPLE_SET[0] in SAMPLE_SET;
  }

  lemma TwentyDigits()
    ensures U64 <= Pow10(20)
  {
    assert Pow10(5) == 100000;
    assert Pow10(10) == 10000000000 by { assert Pow10(8) == 100000000; }
    assert Pow10(15) == 1000000000000000 by { assert Pow10(13) == 10000000000000; }
    assert Pow10(18) == 1000000000000000000;
  }
}
