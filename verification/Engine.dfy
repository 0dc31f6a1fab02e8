/** The public operations: argument validation in front of the store. */
module Engines {
  import Strings
  import opened Crdts
  import opened VectorClocks
  import opened LiveObjects
  import opened OperationQueue
  import opened Stores

  // ---- Validation ----

  datatype Rejection =
    | NodeIDEmpty | KeyEmpty | ElementEmpty | NodeIDTooLong | KeyTooLong | ElementTooLong
    | DeltaZero | DeltaTooLarge | WrongType

  /** Nothing is left of the string when ASCII white space is trimmed. */
  predicate Blank(s: string) {
    forall c :: c in s ==> c == ' ' || '\t' <= c <= '\r'
  }

  function ValidateInput(nodeID: string, key: string, element: string): Option<Rejection> {
    if Blank(nodeID) then Some(NodeIDEmpty)
    else if Blank(key) then Some(KeyEmpty)
    else if Blank(element) then Some(ElementEmpty)
    else if |nodeID| > 256 then Some(NodeIDTooLong)
    else if |key| > 256 then Some(KeyTooLong)
    else if |element| > 1024 then Some(ElementTooLong)
    else None
  }

  function ValidateCounterInput(nodeID: string, key: string, delta: nat): Option<Rejection> {
    if Blank(nodeID) then Some(NodeIDEmpty)
    else if Blank(key) then Some(KeyEmpty)
    else if delta == 0 then Some(DeltaZero)
    else if delta > 1000000 then Some(DeltaTooLarge)
    else if |nodeID| > 256 then Some(NodeIDTooLong)
    else if |key| > 256 then Some(KeyTooLong)
    else None
  }

  function Validate(op: Operation): Option<Rejection> {
    if op.kind == OpCounterInc then ValidateCounterInput(op.nodeID, op.key, op.value)
    else ValidateInput(op.nodeID, op.key, op.element)
  }

  /** The public API's outcome on a store: why the operation is refused, if it is. */
  function Refusal(st: StoreState, op: Operation): Option<Rejection> {
    if Validate(op).Some? then Validate(op) else if Perform(st, op).None? then Some(WrongType) else None
  }

  /** ... and the store afterwards. A refused operation changes nothing. */
  function Submit(st: StoreState, op: Operation): StoreState {
    if Refusal(st, op).None? then Perform(st, op).value else st
  }

  class Engine {
    const mem: MemStore

    ghost predicate Valid()
      reads mem, mem.ops, Refs(mem.objects), mem.ops.clocks
    {
      mem.Valid()
    }

    ghost function View(): StoreState
      reads mem, Refs(mem.objects), Reach(mem.objects)
    {
      mem.View()
    }

    constructor (maxHeapBytes: int)
      ensures Valid() && mem.objects == map[] && mem.history == [] && mem.Repr == {} && fresh(mem) && fresh(mem.ops)
      ensures mem.Slack() == 0 && mem.Replays()
    {
      mem := new MemStore(maxHeapBytes);
    }

    method LWWAdd(nodeID: string, key: string, element: string, ts: VectorClock?) returns (err: Option<Rejection>)
      requires Valid() && (ts != null ==> !ts.ticking)
      modifies mem, mem.ops, mem.Repr
      ensures Valid() && fresh(mem.Repr - old(mem.Repr))
      ensures var op := old(OpState(Op(OpAdd, key, nodeID, element, 0, ts)));
              err == old(Refusal(View(), op)) && View() == old(Submit(View(), op))
      ensures mem.history == old(mem.history) + if err.None? then [Op(OpAdd, key, nodeID, element, 0, ts)] else []
      ensures mem.Slack() == old(mem.Slack()) && (old(mem.Replays()) ==> mem.Replays())
    {
      err := ValidateInput(nodeID, key, element);
      if err.None? {
        err := Append(Op(OpAdd, key, nodeID, element, 0, ts));
      }
    }

    method LWWRemove(nodeID: string, key: string, element: string, ts: VectorClock?) returns (err: Option<Rejection>)
      requires Valid() && (ts != null ==> !ts.ticking)
      modifies mem, mem.ops, mem.Repr
      ensures Valid() && fresh(mem.Repr - old(mem.Repr))
      ensures var op := old(OpState(Op(OpRemove, key, nodeID, element, 0, ts)));
              err == old(Refusal(View(), op)) && View() == old(Submit(View(), op))
      ensures mem.history == old(mem.history) + if err.None? then [Op(OpRemove, key, nodeID, element, 0, ts)] else []
      ensures mem.Slack() == old(mem.Slack()) && (old(mem.Replays()) ==> mem.Replays())
    {
      err := ValidateInput(nodeID, key, element);
      if err.None? {
        err := Append(Op(OpRemove, key, nodeID, element, 0, ts));
      }
    }

    method CounterInc(nodeID: string, key: string, delta: nat, ts: VectorClock?) returns (err: Option<Rejection>)
      requires Valid() && (ts != null ==> !ts.ticking)
      modifies mem, mem.ops, mem.Repr
      ensures Valid() && fresh(mem.Repr - old(mem.Repr))
      ensures var op := old(OpState(Op(OpCounterInc, key, nodeID, "", delta, ts)));
              err == old(Refusal(View(), op)) && View() == old(Submit(View(), op))
      ensures mem.history == old(mem.history) + if err.None? then [Op(OpCounterInc, key, nodeID, "", delta, ts)] else []
      ensures mem.Slack() == old(mem.Slack()) && (old(mem.Replays()) ==> mem.Replays())
    {
      err := ValidateCounterInput(nodeID, key, delta);
      if err.None? {
        err := Append(Op(OpCounterInc, key, nodeID, "", delta, ts));
      }
    }

    method Append(op: Op) returns (err: Option<Rejection>)
      requires Valid() && (op.ts != null ==> !op.ts.ticking) && Validate(OpState(op)).None?
      modifies mem, mem.ops, mem.Repr
      ensures Valid() && fresh(mem.Repr - old(mem.Repr))
      ensures err == old(Refusal(View(), OpState(op))) && View() == old(Submit(View(), OpState(op)))
      ensures mem.history == old(mem.history) + if err.None? then [op] else []
      ensures mem.Slack() == old(mem.Slack()) && (old(mem.Replays()) ==> mem.Replays())
    {
      var ok, _ := mem.AppendOp(op);
      err := if ok then None else Some(WrongType);
    }

    method GetSet(key: string) returns (elems: Option<seq<string>>)
      requires Valid()
      ensures elems.Some? <==> key in View() && View()[key].ASet?
      ensures elems.Some? ==> Strings.Lists(elems.value, VisibleElements(View()[key].s))
    {
      elems := mem.GetSetElements(key);
    }

    method GetCounter(key: string) returns (value: Option<nat>)
      requires Valid()
      ensures value.Some? <==> key in View() && View()[key].ACounter?
      ensures value.Some? ==> value.value == Wrap(Sum(View()[key].c.counters))
    {
      value := mem.GetCounterValue(key);
    }

    method GetAllCRDTs() returns (result: Objects, ghost own: set<object>)
      requires Valid()
      ensures Valid() && View() == old(View())
      ensures Denotes(result, Export(View()))
      ensures Owned(result, own) && fresh(own) && Copies(mem.objects, result, own)
    {
      result, own := mem.GetAllCRDTs();
    }

    /** The installed object must be no other live object; the store then owns it. */
    method ApplyMergedCRDT(key: string, o: CRDT, ghost ours: Objects, ghost a: StoreState, ghost theirs: Objects,
                           ghost b: StoreState)
      requires Valid() && ValidObject(o)
      requires forall k :: k in mem.objects && k != key ==> Own(mem.objects[k]) !! Own(o)
      requires Denotes(ours, a) && Denotes(theirs, b)
      modifies mem`objects, mem`Repr
      ensures Valid() && mem.objects == old(mem.objects)[key := o] && mem.Repr == old(mem.Repr) + Own(o)
      ensures View() == old(View())[key := old(ObjectStateOf(o))]
      ensures Denotes(ours, a) && Denotes(theirs, b)
    {
      mem.ApplyMergedCRDT(key, o, ours, a, theirs, b);
    }
  }

  /** Everything the engine's value depends on. */
  ghost function Territory(e: Engine): set<object>
    reads e.mem, Refs(e.mem.objects), e.mem.ops
  {
    {e.mem, e.mem.ops} + Refs(e.mem.objects) + Reach(e.mem.objects) + e.mem.ops.clocks
  }

  /** The engine is sound and has the value st. */
  ghost predicate EngineHas(e: Engine, st: StoreState)
    reads Territory(e)
  {
    e.Valid() && e.View() == st
  }

  lemma OtherStore(e: Engine, mem: MemStore)
    requires e.mem != mem
    ensures mem !in Territory(e)
  {
  }

  /** What does not touch an engine's territory leaves the engine as it is. */
  twostate lemma StillHas(x: (Engine, StoreState, set<object>))
    requires x.2 == old(Territory(x.0)) && unchanged(x.2) && old(EngineHas(x.0, x.1))
    ensures EngineHas(x.0, x.1)
  {
  }
}
