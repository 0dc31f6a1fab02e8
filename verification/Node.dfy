/** A running node: its ticks and what it does with received messages. */
module Nodes {
  import opened Crdts
  import opened VectorClocks
  import opened LiveObjects
  import opened Stores
  import opened Engines
  import opened LocalData

  // ---- Objects on the wire ----

  /** Clocks read from a message are new objects. */
  method DecodeClocks(m: ClockMap) returns (refs: ClockRefs)
    ensures Recorded(refs) && Entries(refs) == m
  {
    refs := map[];
    var todo := m.Keys;
    while todo != {}
      invariant todo <= m.Keys && refs.Keys == m.Keys - todo
      invariant Recorded(refs)
      invariant forall e :: e in refs ==> refs[e].entries == m[e]
    {
      var e :| e in todo;
      todo := todo - {e};
      var clock := new VectorClock(m[e], false);
      refs := refs[e := clock];
    }
  }

  method Decode(v: ObjectState) returns (o: CRDT)
    ensures ValidObject(o) && ObjectStateOf(o) == v && fresh(Own(o))
  {
    if v.ASet? {
      var adds := DecodeClocks(v.s.adds);
      var removes := DecodeClocks(v.s.removes);
      var timestamp := new VectorClock(v.s.timestamp, false);
      var lww := new LWWSet.Holding(v.s.key, adds, removes, timestamp);
      o := SetRef(lww);
    } else {
      var timestamp := new VectorClock(v.c.timestamp, true);
      var counter := new Counter.Holding(v.c.key, v.c.counters, timestamp);
      o := CounterRef(counter);
    }
  }

  class Node {
    const nodeID: string
    const engine: Engine
    /** False for a node that only subscribes. */
    const publishes: bool
    var counter: nat

    ghost predicate Valid()
      reads engine.mem, engine.mem.ops, Refs(engine.mem.objects), engine.mem.ops.clocks
    {
      engine.Valid() && |nodeID| >= 6 && this !in engine.mem.Repr
    }

    constructor (nodeID: string, engine: Engine, publishes: bool)
      requires engine.Valid() && |nodeID| >= 6
      ensures Valid() && this.nodeID == nodeID && this.engine == engine && this.publishes == publishes && counter == 0
    {
      this.nodeID, this.engine, this.publishes, counter := nodeID, engine, publishes, 0;
    }

    /** The same clock object serves the add and the increment. */
    method AddLocalData(tick: nat) returns (err: Option<Rejection>)
      requires Valid()
      modifies engine.mem, engine.mem.ops, engine.mem.Repr
      ensures Valid() && fresh(engine.mem.Repr - old(engine.mem.Repr))
      ensures engine.View() == old(AfterLocalData(engine.View(), nodeID, tick))
      ensures err.None? <==> old(Refusal(engine.View(), AddOp(nodeID, tick))).None?
                             && old(Refusal(Submit(engine.View(), AddOp(nodeID, tick)), IncOp(nodeID, tick))).None?
    {
      var ts := new VectorClock(TickClock(nodeID, tick), false);
      assert engine.View() == old(engine.View());
      err := WriteTick(tick, ts);
    }

    method WriteTick(tick: nat, ts: VectorClock) returns (err: Option<Rejection>)
      requires Valid() && !ts.ticking && ts.entries == TickClock(nodeID, tick)
      modifies engine.mem, engine.mem.ops, engine.mem.Repr
      ensures Valid() && fresh(engine.mem.Repr - old(engine.mem.Repr))
      ensures engine.View() == old(AfterLocalData(engine.View(), nodeID, tick))
      ensures err.None? <==> old(Refusal(engine.View(), AddOp(nodeID, tick))).None?
                             && old(Refusal(Submit(engine.View(), AddOp(nodeID, tick)), IncOp(nodeID, tick))).None?
    {
      ghost var st, add, inc := engine.View(), AddOp(nodeID, tick), IncOp(nodeID, tick);
      err := engine.LWWAdd(nodeID, SAMPLE_SET, ElementName(nodeID, tick), ts);
      assert err == Refusal(st, add) && engine.View() == Submit(st, add);
      if err.None? {
        assert ts.entries == TickClock(nodeID, tick);
        err := engine.CounterInc(nodeID, CounterKey(nodeID), 1, ts);
        assert err == Refusal(Submit(st, add), inc) && engine.View() == Submit(Submit(st, add), inc);
      }
    }

    /** `syncCRDTState`: the message carries an encoded snapshot of the whole store. */
    method SyncCRDTState() returns (msg: Message)
      requires Valid()
      ensures Valid() && engine.View() == old(engine.View())
      ensures msg == Sync(nodeID, Export(engine.View()))
    {
      var all, _ := engine.GetAllCRDTs();
      msg := Sync(nodeID, StateOf(all));
    }

    /** One turn of the publisher loop; the tick is repeated when publishing fails. */
    method Tick(publishSucceeds: bool) returns (msg: Message)
      requires Valid()
      modifies `counter, engine.mem, engine.mem.ops, engine.mem.Repr
      ensures Valid()
      ensures engine.View() == old(AfterLocalData(engine.View(), nodeID, counter))
      ensures msg == Sync(nodeID, Export(engine.View()))
      ensures counter == old(counter) + if publishSucceeds then 1 else 0
    {
      ghost var after := AfterLocalData(engine.View(), nodeID, counter);
      var _ := AddLocalData(counter);
      msg := SyncCRDTState();
      if publishSucceeds { Advance(); }
      assert engine.View() == after;
    }

    method Advance()
      requires Valid()
      modifies `counter
      ensures Valid() && engine.View() == old(engine.View()) && counter == old(counter) + 1
    {
      assert this !in Refs(engine.mem.objects);
      assert forall c :: c in engine.mem.ops.clocks ==> c as object != this;
      counter := counter + 1;
    }

    /** `applyCRDTSync`: merge into a snapshot taken at the start, and install key by key. */
    method ApplyCRDTSync(data: StoreState)
      requires Valid()
      modifies engine.mem`objects, engine.mem`Repr
      ensures Valid()
      ensures SyncOf(old(Export(engine.View())), data, old(engine.View()), engine.View())
    {
      ghost var before := engine.View();
      var ours, _ := engine.GetAllCRDTs();
      ghost var snap := Export(before);
      var todo := data.Keys;
      while todo != {}
        invariant todo <= data.Keys
        invariant Valid() && Denotes(ours, snap)
        invariant SyncedBut(snap, data, before, engine.View(), todo)
      {
        var key :| key in todo;
        ghost var mid := engine.View();
        SyncKey(ours, snap, key, data);
        SyncTurn(snap, data, before, mid, engine.View(), key, todo);
        todo := todo - {key};
      }
    }

    /** One turn of the loop in `applyCRDTSync`: decode, merge if we have the key, install. */
    method SyncKey(ours: Objects, ghost snap: StoreState, key: string, data: StoreState)
      requires Valid() && Denotes(ours, snap) && key in data
      modifies engine.mem`objects, engine.mem`Repr
      ensures Valid() && Denotes(ours, snap)
      ensures Turn(snap, data, old(engine.View()), engine.View(), key)
    {
      ghost var st, territory, extent := engine.View(), Territory(engine), Extent(ours);
      var o := Incoming(ours, snap, key, data[key]);
      StillHas((engine, st, territory));
      StillDenotes((ours, snap, extent));
      if o.Some? {
        TurnBy(snap, data, st, key, ObjectStateOf(o.value));
        InstallBeside(ours, snap, key, o.value);
      }
    }

    method InstallBeside(ours: Objects, ghost snap: StoreState, key: string, o: CRDT)
      requires Valid() && Denotes(ours, snap) && ValidObject(o)
      requires forall k :: k in engine.mem.objects ==> Own(engine.mem.objects[k]) !! Own(o)
      modifies engine.mem`objects, engine.mem`Repr
      ensures Valid() && Denotes(ours, snap)
      ensures engine.View() == old(engine.View())[key := old(ObjectStateOf(o))]
    {
      assert this !in Own(o);
      engine.ApplyMergedCRDT(key, o, ours, snap, ours, snap);
    }

    /** `receiveCRDTMessage` for a message that parsed; a node ignores its own messages. The first
        eight characters of another sender's ID are logged, so it must have them. */
    method Receive(msg: Message) returns (reply: Option<Message>)
      requires Valid() && (msg.from == nodeID || |msg.from| >= 8)
      modifies engine.mem`objects, engine.mem`Repr
      ensures Valid()
      ensures msg.from == nodeID || msg.SyncRequest? ==> engine.View() == old(engine.View())
      ensures msg.from != nodeID && msg.Sync? ==>
        SyncOf(old(Export(engine.View())), msg.data, old(engine.View()), engine.View())
      ensures reply == if msg.from != nodeID && msg.SyncRequest? && publishes
                       then Some(Sync(nodeID, Export(engine.View()))) else None
    {
      reply := None;
      if msg.from == nodeID { return; }
      if msg.Sync? {
        ApplyCRDTSync(msg.data);
      } else if publishes {
        var state := SyncCRDTState();
        reply := Some(state);
      }
    }
  }

  /** The object to install for a received one, if any. */
  method Incoming(ours: Objects, ghost snap: StoreState, key: string, remote: ObjectState) returns (o: Option<CRDT>)
    requires Denotes(ours, snap)
    ensures o.None? <==> key in snap && !Mergeable(snap[key], remote)
    ensures o.Some? ==> fresh(Own(o.value)) && ValidObject(o.value)
    ensures o.Some? && key in snap ==> MergeOf(snap[key], remote, ObjectStateOf(o.value))
    ensures o.Some? && key !in snap ==> ObjectStateOf(o.value) == remote
  {
    var decoded := Decode(remote);
    if key in ours {
      assert ObjectStateOf(ours[key]) == snap[key];
      o := MergeCRDT(ours[key], decoded);
    } else {
      o := Some(decoded);
    }
  }

  /** What one turn does to the store. */
  ghost predicate Turn(snap: StoreState, msg: StoreState, st: StoreState, st': StoreState, key: string)
    requires key in msg
  {
    if key in snap && !Mergeable(snap[key], msg[key]) then st' == st
    else key in st' && st' == st[key := st'[key]]
         && if key in snap then MergeOf(snap[key], msg[key], st'[key]) else st'[key] == msg[key]
  }

  lemma TurnBy(snap: StoreState, msg: StoreState, st: StoreState, key: string, v: ObjectState)
    requires key in msg && if key in snap then MergeOf(snap[key], msg[key], v) else v == msg[key]
    ensures Turn(snap, msg, st, st[key := v], key)
  {
  }

  /** The turns for all keys but todo have been taken. */
  ghost predicate SyncedBut(snap: StoreState, msg: StoreState, before: StoreState, after: StoreState,
                            todo: set<string>) {
    && (forall k :: k !in todo ==> Synced(snap, msg, before, after, k))
    && (forall k :: k in todo ==> SameAt(before, after, k))
  }

  lemma SyncTurn(snap: StoreState, msg: StoreState, before: StoreState, mid: StoreState, after: StoreState,
                 key: string, todo: set<string>)
    requires SyncedBut(snap, msg, before, mid, todo) && key in todo
    requires key in msg && Turn(snap, msg, mid, after, key)
    ensures SyncedBut(snap, msg, before, after, todo - {key})
  {
  }
}
