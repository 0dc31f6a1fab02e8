/** The clock maps the program shares by reference. One VectorClock object may at once be an
    element clock of several sets, the clock of queued operations and part of snapshots. */
module VectorClocks {
  import opened Strings
  import opened Clocks

  class VectorClock {
    var entries: Clock

    /** Set for the timestamps counters tick in place; every other clock only ever shrinks. */
    ghost const ticking: bool

    constructor (entries: Clock, ghost ticking: bool)
      ensures this.entries == entries && this.ticking == ticking
    {
      this.entries := entries;
      this.ticking := ticking;
    }

    /** Looks at the nodes of both clocks in any order. */
    method Compare(other: VectorClock) returns (r: int)
      ensures r == Order(entries, other.entries)
    {
      var less, greater, equal := false, false, true;
      var todo := entries.Keys + other.entries.Keys;
      ghost var all := todo;
      while todo != {}
        invariant todo <= all
        invariant less <==> exists n :: n in all - todo && n in other.entries
                              && (n in entries ==> entries[n] < other.entries[n])
        invariant greater <==> exists n :: n in all - todo && n in entries
                                 && (n in other.entries ==> other.entries[n] < entries[n])
        invariant equal <==> !less && !greater
      {
        var node :| node in todo;
        todo := todo - {node};
        if node !in entries {
          less, equal := true, false;
        } else if node !in other.entries {
          greater, equal := true, false;
        } else if entries[node] > other.entries[node] {
          greater, equal := true, false;
        } else if entries[node] < other.entries[node] {
          less, equal := true, false;
        }
      }
      assert less <==> !Leq(other.entries, entries);
      assert greater <==> !Leq(entries, other.entries);
      OrderLaws(entries, other.entries, entries);
      if equal { LeqAntisymmetric(entries, other.entries); }
      r := if equal then 0 else if less && greater then 0 else if greater then 1 else -1;
    }

    method Merge(other: VectorClock, ghost ticking: bool) returns (result: VectorClock)
      ensures fresh(result) && result.ticking == ticking
      ensures result.entries == Lub(entries, other.entries)
    {
      var merged := entries;
      var todo := other.entries.Keys;
      while todo != {}
        invariant todo <= other.entries.Keys
        invariant merged.Keys == entries.Keys + (other.entries.Keys - todo)
        invariant forall n :: n in merged ==>
          merged[n] == if n in todo || n !in other.entries then entries[n] else Lub(entries, other.entries)[n]
      {
        var node :| node in todo;
        todo := todo - {node};
        if node !in merged || other.entries[node] > merged[node] {
          merged := merged[node := other.entries[node]];
        }
      }
      assert merged == Lub(entries, other.entries);
      result := new VectorClock(merged, ticking);
    }

    method Increment(nodeID: string)
      modifies this
      ensures entries == Bump(old(entries), nodeID)
    {
      if nodeID in entries {
        entries := entries[nodeID := entries[nodeID] + 1];
      } else {
        entries := entries[nodeID := 1];
      }
    }

    method Prune(active: set<string>)
      modifies this
      ensures entries == Restrict(old(entries), active)
    {
      var todo := entries.Keys;
      while todo != {}
        invariant todo <= old(entries).Keys
        invariant entries == Restrict(old(entries), active + todo)
      {
        var node :| node in todo;
        todo := todo - {node};
        if node !in active {
          entries := entries - {node};
        }
      }
      assert active + todo == active;
    }

    /** The first node met among those with the largest positive entry. */
    method ExtractNodeID() returns (maxNode: string)
      ensures IsPrimary(entries, maxNode)
    {
      maxNode := "";
      var maxTS := 0;
      var todo := entries.Keys;
      while todo != {}
        invariant todo <= entries.Keys
        invariant forall n :: n in entries.Keys - todo ==> entries[n] <= maxTS
        invariant if maxTS == 0 then maxNode == "" else maxNode in entries && entries[maxNode] == maxTS
      {
        var node :| node in todo;
        todo := todo - {node};
        if entries[node] > maxTS {
          maxTS, maxNode := entries[node], node;
        }
      }
    }
  }

  /** `deterministicMerge`: the later clock, and by node ID between concurrent ones. */
  method DeterministicMerge(ts1: VectorClock, ts2: VectorClock, nodeID1: string, nodeID2: string)
      returns (r: VectorClock)
    ensures Less(ts1.entries, ts2.entries) ==> r == ts2
    ensures Less(ts2.entries, ts1.entries) ==> r == ts1
    ensures ts1.entries == ts2.entries || Concurrent(ts1.entries, ts2.entries)
      ==> r == if Before(nodeID1, nodeID2) then ts1 else ts2
  {
    OrderLaws(ts1.entries, ts2.entries, ts1.entries);
    var compare := ts1.Compare(ts2);
    if compare > 0 {
      r := ts1;
    } else if compare < 0 {
      r := ts2;
    } else if Before(nodeID1, nodeID2) {
      r := ts1;
    } else {
      r := ts2;
    }
  }

  /** The body of the merge loops: what to keep when both sides recorded the element. */
  method Resolve(ours: VectorClock, ts: VectorClock) returns (r: VectorClock)
    ensures (r == ours || r == ts) && Resolves(ours.entries, ts.entries, r.entries)
  {
    OrderLaws(ours.entries, ts.entries, ours.entries);
    var compare := ts.Compare(ours);
    if compare > 0 {
      r := ts;
    } else if compare < 0 {
      r := ours;
    } else {
      var nodeID1 := ours.ExtractNodeID();
      var nodeID2 := ts.ExtractNodeID();
      r := DeterministicMerge(ours, ts, nodeID1, nodeID2);
    }
  }
}
