# CRDT replication core: model and proofs

A Dafny model of the replication core in `CRDT/` and `CRDTSync/`, of the offline synchronisation that
`CRDT/readme.md` describes (its code is in `CRDT/crdt_test.go`), and of the list splitting in `main.go`.

There are two layers, joined by the contracts of the classes.

* **Values.** `Clocks`, `Crdts` and `Network` say what a clock, a set, a counter, a store and a network of
  nodes are, and what every operation makes of them. The main results are lemmas about these.
* **Objects.** `VectorClocks`, `LiveObjects`, `OperationQueue`, `Stores`, `Engines`, `Nodes` and `Offline` are
  the program's mutable classes. Clocks are heap objects that sets, queued operations and snapshots share, as
  in the program, and every method is proved to do to its object what the value layer says.

Where the program's map iteration order can matter (`extractNodeID` on a tied clock), results are relations
(`Resolves`, `MergeOf`, `SyncOf`); everywhere else the loops pick keys in any order and are proved to give one
result.

## Results

1. **Clocks** (`Clocks`, `VectorClocks`). `Compare` decides a strict partial order in which a missing entry lies
   below an explicit 0, and `Merge` is its least upper bound. The choice between two concurrent clocks is independent
   of argument order exactly when the clocks are equal or one beats the other; it is independent of order and grouping
   on a family of clocks exactly when the family is strictly and totally ordered. One-entry clocks, which are what
   a running node issues, are such a family; `{a:1}`, `{b:5}`, `{a:1,c:2}` are not.
2. **Convergence** (`Convergence`, `Running`, `Disagreement`). Applying states in any order and with any repetition gives
   equal stores on all stores over a family of clocks if and only if the family is linear. `CRDT/readme.md:81` promises
   "deterministic results regardless of sync order" without that condition. The code does not keep the promise in general:
   three nodes that only remove and add one element, without supplying clocks, reach three states that two other nodes
   apply in different orders, after which one lists the element and the other does not. The running protocol meets the
   condition in every history, and in its atomic histories nodes that have absorbed the same operations of each node have
   equal stores (`Knowledge`).
3. **The protocol** (`Network`, `Protocol`, `SplitApply`, `Gap`, `Loss`, `Running`). Any number of nodes tick, publish and
   apply over a network that drops, repeats and reorders messages. With atomic applies every copy of the sample set,
   anywhere, holds a gap-free prefix of what each node added and its timestamp says exactly which, also when failed
   publishes repeat ticks. With the unlocked gap in `applyCRDTSync` every recorded clock is still the one its writer
   issued and nothing ever fails. But an install loses exactly the elements that the node added since its snapshot and
   that neither snapshot nor message has, whatever else happens in between. A lost element can be seen again if and only
   if it still occurs somewhere or its tick has not been counted. Every network of two publishers can lose an element
   for good, although `CRDT/readme.md:79` claims that no data is lost. The node's counter loses what was added in the gap,
   too: after the install it shows the larger one of the snapshot's and the message's count (`Shortfall`). Every reader stays
   short of what the node added, whatever happens, if and only if every copy still of use is. A split apply in which the node
   does nothing else is equivalent to an atomic one.
4. **Counters** (`Network`, `Absorption`). In every run no entry exceeds what was issued and 18,446,744,073,709
   increments cannot make the total wrap. When nodes increment their own entries and applies are atomic, a counter is
   exactly the sum of the operations its replica has absorbed.
5. **Offline synchronisation** (`SyncPass`, `Agreement`, `Offline`, `Disagreement`). One pass of the nested loop of
   `syncAllNodes`, over live engines changed in place, always leaves the online nodes equal, for all stores over a family of
   clocks, any number of nodes, any order and any nodes offline, if and only if any two clocks of an element resolve alike
   from both sides; no transitivity is needed. When the family is linear the common result is the join of what the online
   nodes started with, whatever the order. `CRDT/readme.md:26-29` promises without a condition that all nodes reach
   identical state. In general they do not: two nodes that add and remove one element without supplying clocks can reach
   states of which, however often they exchange them, one lists the element and the other does not. Offline nodes are
   left alone by a pass, and refuse operations.
6. **Histories** (`Histories`). A set's timestamp dominates all its clocks in every run, pruning included, so operations
   without a clock always take effect and a lone store is a family of plain sets; replaying the accepted operations
   reproduces the store. What pruning can and cannot do to visibility is characterised exactly.
7. **The store** (`Stores`, `OperationQueue`, `Isolation`). Evicted and queued operations together are the accepted
   ones in order, the metrics count them, and replaying them reproduces the store. Each append evicts the least that
   will do. Although pruning shrinks clocks of queued operations, the recorded bytes cover the queue and the queue stays
   within capacity. Their excess over the queue's size, none without pruning, is kept by every append, so what pruning costs
   never comes back; an append empties the queue exactly if the excess and the operation exceed capacity. Snapshots that
   share clocks with the store stay as they were through writes, installs and merges, and lose entries of just those clocks
   when the store is pruned.
8. **Splitting** (`Fields`). `split` cuts at the leftmost separators, `join` inverts it, and it inverts `join` exactly
   when no separator begins inside a piece. `splitAndTrim` keeps exactly the fields with text, in order.
9. **Single operations** (`Effects`, `LocalData`, `Strings`, `OperationQueue`). Which operations are refused, for which of the
   reasons, and what an accepted one leaves in the store, entry by entry, is told in terms of its arguments; so are the names a
   tick writes, the order of strings, decimal rendering and the size of a queued operation.

## Model

| member | source | states |
|---|---|---|
| Clocks.OrderLaws | CRDT/crdt.go:27-79 | Compare's answers mirror when the arguments swap, "after" is transitive and irreflexive, 0 is exactly equal or concurrent |
| Clocks.LubIsLeast | CRDT/crdt.go:81-93 | Merge yields the least clock above both arguments |
| Clocks.LubLaws | CRDT/crdt.go:81-93 | hence Merge is commutative, associative, idempotent and absorbs what lies below |
| Clocks.BumpIsAbove | CRDT/crdt.go:132-138 | a ticked clock is strictly later |
| Clocks.BumpIsLeast | CRDT/crdt.go:132-138 | it is the least clock above the old one in which the node has ticked, and Compare finds it after the old one |
| Clocks.RestrictIsGreatest | CRDT/crdt.go:143-149 | a pruned clock is the greatest clock below the old one that mentions active nodes only |
| Clocks.OrderIndependentIff | CRDT/crdt.go:96-129 | two clocks resolve alike in both argument orders and under every map order iff they are equal or one beats the other |
| Clocks.DeterminateIff | CRDT/crdt.go:96-129 | for clocks with a unique largest entry: iff they are equal, causally ordered or have different primary nodes |
| Clocks.SettledOnce | CRDT/crdt.go:96-129 | in that case the resolution is the winner and nothing else |
| Clocks.NoPositiveEntry | CRDT/crdt.go:113-129 | a clock without a positive entry beats every concurrent clock that has one, and against another such clock the argument order decides |
| Clocks.OrderFreeIff | CRDT/crdt.go:243-289 | resolution ignores order and grouping on a family of clocks iff "beats" is a strict total order on it |
| Clocks.OneEntryBeats | CRDT/crdt.go:96-129 | between one-entry clocks the later tick of a node wins, and the smaller node ID between nodes |
| Clocks.OneEntryLinear | CRDTSync/implementation.go:127-132 | the clocks the running node issues are strictly and totally ordered by "beats" |
| Clocks.ChainLinear | CRDT/crdt.go:96-109 | so are clocks that are causally ordered among themselves |
| Clocks.Circle | CRDT/crdt.go:96-129 | {a:1} beats {b:5}, which beats {a:1,c:2}, which beats {a:1} |
| Clocks.GroupingMatters | CRDT/crdt.go:96-129 | on these three, pairwise order independent with unique largest entries, grouping changes the result |
| VectorClocks.VectorClock.Compare | CRDT/crdt.go:32-79 | whatever the map order, decides the order of module Clocks |
| VectorClocks.VectorClock.Merge | CRDT/crdt.go:82-93 | a new clock, the least upper bound |
| VectorClocks.VectorClock.Increment | CRDT/crdt.go:132-138 | ticks in place |
| VectorClocks.VectorClock.Prune | CRDT/crdt.go:143-149 | keeps exactly the active nodes' entries, in place |
| VectorClocks.VectorClock.ExtractNodeID | CRDT/crdt.go:113-129 | returns some node with the largest positive entry, "" if there is none |
| VectorClocks.DeterministicMerge | CRDT/crdt.go:96-109 | keeps the later clock, else the one whose node ID is smaller, else the second; the object itself, not a copy |
| VectorClocks.Resolve | CRDT/crdt.go:243-261 | the body of the merge loops resolves the conflict |
| Strings.BeforeIff | CRDT/crdt.go:104-106 | one string precedes another iff it is a proper prefix of it or has the smaller character at the first difference |
| Strings.ListingUnique | CRDT/crdt.go:222-224 | a set has one strictly sorted listing |
| Strings.DecimalInjective | CRDTSync/implementation.go:128 | different ticks are rendered differently |
| Strings.DecimalReadsBack | CRDTSync/implementation.go:128 | the rendering of a number has digits only and no leading zero, and read digit by digit gives the number |
| Strings.NumeralIsDecimal | CRDTSync/implementation.go:128 | every such string is the rendering of the number it denotes |
| LiveObjects.LWWSet.ApplyOp | CRDT/crdt.go:186-198 | the set's own Add and Remove record a ticked clock that is also the new timestamp |
| LiveObjects.LWWSet.ApplySetOp | CRDT/MemoryStore.go:121-138 | records the supplied clock object, or a ticked copy of the timestamp, and raises the timestamp |
| LiveObjects.LWWSet.Contains | CRDT/crdt.go:201-212 | added, and not removed or added strictly later |
| LiveObjects.LWWSet.GetElements | CRDT/crdt.go:215-225 | the strictly sorted list, in the order of Strings.Before, of exactly the visible elements |
| LiveObjects.LWWSet.Merge | CRDT/crdt.go:228-293 | fails iff kind or key differ; otherwise a new set as MergeOf says, in which every element's clock is the clock object of one of the two sides |
| LiveObjects.MergeClocks | CRDT/crdt.go:239-266 | the merge loop over element clocks keeps, for every element, the clock object of one of the two sides that the conflict rule picks |
| LiveObjects.Counter.IncrementWithTimestamp | CRDT/crdt.go:325-334 | adds to the entry modulo 2^64; merges the supplied clock or ticks its own in place |
| LiveObjects.Counter.Value | CRDT/crdt.go:336-342 | the sum of the entries modulo 2^64, in any order |
| LiveObjects.Counter.Merge | CRDT/crdt.go:345-365 | fails iff kind or key differ; otherwise the pointwise maximum |
| LiveObjects.CopyCRDT | CRDT/MemoryStore.go:243-270 | a new object that shares the element clocks and copies the rest, labelled with the map key |
| LiveObjects.PruneCRDT | CRDT/MemoryStore.go:181-197 | every clock the object refers to is restricted to the active nodes, shared ones included |
| Crdts.SumPicks | CRDT/crdt.go:336-342 | the sum does not depend on the order of the entries |
| Crdts.SumMonotone | CRDT/crdt.go:336-342 | larger entries, larger total |
| Crdts.WrapIsModular | CRDT/crdt.go:325-342 | wrapping takes away a multiple of 2^64 |
| Crdts.MergesIff | CRDT/crdt.go:228-235 | two objects merge iff they are two sets of one key or two counters of one key |
| Crdts.ExportLabels | CRDT/MemoryStore.go:236-273 | a snapshot has the store's keys and values, each object under its own key |
| OperationQueue.MeasureOp | CRDT/Heap.go:28-64 | computes ApproxSize whatever the map order |
| OperationQueue.SizeOfEmpty | CRDT/Heap.go:28-64 | an operation with empty strings and no clock measures 144 bytes |
| OperationQueue.SizeLaw | CRDT/Heap.go:28-64 | each further character of key, node ID or element adds 1 byte, each further clock node 34 bytes and its name, and kind, value and times add nothing |
| OperationQueue.SizeShrinks | CRDT/Heap.go:28-64 | an operation whose clock was pruned never measures more |
| OperationQueue.OpHeap.Append | CRDT/Heap.go:81-97 | what is evicted and what stays is the old queue and the new operation in order; the shortest oldest-first prefix that brings the recorded bytes within capacity is evicted; the recorded bytes drop by its current size |
| OperationQueue.OpHeap.EvictOverflow | CRDT/Heap.go:89-95 | the eviction loop, in place |
| OperationQueue.LeastByLast | CRDT/Heap.go:89-95 | stopping at the first total that fits evicts no more than needed |
| OperationQueue.SlackKept | CRDT/Heap.go:81-97 | every append keeps the excess of the recorded bytes over the queue's present size |
| OperationQueue.AppendEmptiesIff | CRDT/Heap.go:81-97 | an append empties the queue, the new operation included, iff that operation's size and the excess together are above capacity |
| OperationQueue.NothingFits | CRDT/Heap.go:81-97 | once the excess leaves less than 144 bytes, an append empties the queue, and so does every later one |
| OperationQueue.QueueBound | CRDT/Heap.go:81-97 | a sound queue holds at most capBytes/144 operations, and its current size is within capacity |
| OperationQueue.OpHeap.Stats | CRDT/Heap.go:106-113 | the reported bytes cover the queue's present size, which is at least 144 bytes for each reported operation, and both are within capacity |
| Stores.MemStore.GetOrCreate | CRDT/MemoryStore.go:47-71 | finds or creates the object, refuses one of the wrong kind, changes nothing else |
| Stores.MemStore.AppendOp | CRDT/MemoryStore.go:74-118 | applies the operation to its object and queues it, or refuses it and changes nothing; evicts the shortest oldest-first prefix that will do; the evicted operations followed by the queue are the accepted ones, and the metrics count both; the excess of the recorded bytes over the queue's size stays the same; if replaying the accepted operations reproduced the store, it still does |
| Stores.MemStore.GetSetElements | CRDT/MemoryStore.go:147-159 | the visible elements sorted, absent for a missing key or another kind |
| Stores.MemStore.GetCounterValue | CRDT/MemoryStore.go:161-173 | the total modulo 2^64, absent for a missing key or another kind |
| Stores.MemStore.PruneVectorClocks | CRDT/MemoryStore.go:177-198 | every object reads as its pruned value, since exactly the clocks the objects refer to are restricted, in place; the excess of the recorded bytes over the queue's size does not fall |
| Stores.MemStore.GetActiveNodes | CRDT/MemoryStore.go:201-232 | exactly the nodes that occur in some clock |
| Stores.MemStore.GetAllCRDTs | CRDT/MemoryStore.go:236-273 | new objects with the store's value, each labelled with its key; they refer to the store's own element clocks and to new clocks otherwise |
| Stores.MemStore.ApplyMergedCRDT | CRDT/CRDT_DBOps.go:88-92 | installs the object under the key and changes nothing else |
| Engines.Engine.LWWAdd | CRDT/CRDT_DBOps.go:23-36 | the reason for refusal (Effects.SetRefusals), or the store after the add (Effects.SetEffect); refused operations change nothing; the excess of the recorded bytes stays the same and the accepted operations keep reproducing the store |
| Engines.Engine.LWWRemove | CRDT/CRDT_DBOps.go:40-53 | the same for removes |
| Engines.Engine.CounterInc | CRDT/CRDT_DBOps.go:57-70 | the same for increments |
| Engines.Engine.GetSet | CRDT/CRDT_DBOps.go:72-74 | reads a set |
| Engines.Engine.GetCounter | CRDT/CRDT_DBOps.go:76-78 | reads a counter |
| Effects.SetRefusals | CRDT/helper.go:10-35 | an add or remove is refused iff one of node ID, key and element, in this order, is blank, or too long, or the key has a counter; the reason is the first of these |
| Effects.CounterRefusals | CRDT/helper.go:37-60 | an increment is refused iff node ID or key is blank, the delta is 0 or above a million, one of the two is too long, or the key has a set; the reason is the first of these in this order |
| Effects.OnlyItsKey | CRDT/MemoryStore.go:74-118 | no operation changes another key's object, and refused operations and those of unknown kinds change nothing |
| Effects.TimestampAfter | CRDT/MemoryStore.go:121-143 | the timestamp after an accepted operation: without a clock one more for the node and nothing else changed, with a clock the least one above the old timestamp and the clock |
| Effects.IncrementEffect | CRDT/crdt.go:325-334 | an accepted increment adds its value to its node's entry modulo 2^64 and leaves the other entries |
| Effects.SetEffect | CRDT/MemoryStore.go:121-138 | an accepted add or remove records the supplied clock, or the ticked timestamp, for its element and kind, and leaves every other record |
| Effects.ActiveAfter | CRDT/MemoryStore.go:201-232 | the nodes of an accepted operation's clock are active afterwards, and an increment changes nothing else about which nodes are |
| Isolation.RunBeside | CRDT/MemoryStore.go:234-273 | any sequence of writes, of installs of objects that are neither the snapshot's own nor live in the store, each at most once, which may share clocks with the snapshot, and of merges with the snapshot leaves the snapshot as it was taken |
| Isolation.MergeBeside | CRDTSync/implementation.go:360-375 | merging a received value into the snapshot's object and installing the result changes the store as specified and not the snapshot |
| Isolation.WriteBeside | CRDT/MemoryStore.go:121-143 | a write changes the store as specified and no snapshot |
| Isolation.InstallBeside | CRDT/CRDT_DBOps.go:88-92 | neither does installing any object that is not the snapshot's own |
| Isolation.TakeSnapshot | CRDT/MemoryStore.go:234-273 | a snapshot just taken is separate from the store but for the element clocks |
| Isolation.PruneBeside | CRDT/MemoryStore.go:175-198 | pruning the store leaves a snapshot, of whose timestamps the store has none, with each element clock as it was or restricted and nothing else changed, as Network's prune step says |
| Isolation.NothingShared | CRDT/crdt.go:325-334 | a snapshot and the clocks a store ticks in place are disjoint |
| Convergence.SetMergeCommutesIff | CRDT/crdt.go:228-293 | set merge is commutative for two sets iff every element clock they share is order independent |
| Convergence.MergeIsJoin | CRDT/crdt.go:228-293 | over a linear family, merge is the least upper bound of two objects |
| Convergence.SyncIsJoin | CRDTSync/implementation.go:318-379 | applying a message leaves the join of the store and the message |
| Convergence.ReceivesJoin | CRDTSync/implementation.go:318-379 | after any list of messages the store is the join of its first state and all of them |
| Convergence.ConvergesIff | CRDT/readme.md:79-82 | equal sets of states lead to equal stores in any order and multiplicity, for all stores over a family of clocks, iff the family is linear |
| Disagreement.CircleDiverges | CRDT/readme.md:79-82 | no family with the three clocks of Clocks.Circle for one element converges |
| Disagreement.NodeA | CRDT/MemoryStore.go:121-138 | a node that removes and adds an element without clocks reaches the first state |
| Disagreement.NodeB | CRDT/MemoryStore.go:121-138 | five removes without clocks at one node, all accepted, reach the second |
| Disagreement.NodeC | CRDT/MemoryStore.go:121-138 | a node that applies the first node's first state and removes it twice reaches the third |
| Disagreement.SameStatesDifferentReaders | CRDT/readme.md:79-82 | two empty nodes that apply these three states in different orders list different elements, whatever the map order |
| Disagreement.TwoNodesReach | CRDT/MemoryStore.go:121-138 | two nodes that apply one state and then, by accepted operations without clocks, remove the element and add it back, or remove it, reach the states of the next row |
| Disagreement.TwoNodesNeverAgree | CRDT/readme.md:26-29 | after every exchange of those two nodes, whatever the map orders, exactly one of them lists the element, each time the other one |
| Nodes.Node.AddLocalData | CRDTSync/implementation.go:123-142 | the add and then, if it was accepted, the increment, with one shared clock |
| Nodes.Node.Tick | CRDTSync/implementation.go:145-173 | local data, then a message with the whole store; the counter advances iff publishing succeeded |
| Nodes.Node.SyncCRDTState | CRDTSync/implementation.go:210-264 | the message carries the store's value |
| Nodes.Node.ApplyCRDTSync | CRDTSync/implementation.go:318-379 | in any key order: merged with the snapshot's object, installed as received, or skipped, key by key |
| Nodes.Node.Receive | CRDTSync/implementation.go:267-316 | own messages are ignored, states applied, requests answered by publishing nodes |
| Nodes.SyncTurn | CRDTSync/implementation.go:323-376 | one turn of the loop settles its key and no other |
| LocalData.ElementNameInjective | CRDTSync/implementation.go:124-128 | an element's name determines suffix and tick |
| LocalData.TickWrites | CRDTSync/implementation.go:123-142 | the node whose ID ends in the six characters s adds s-i to "sample-set" and 1 to s-counter on its i-th tick, both with clock {node: i+1} |
| LocalData.NamesEqualIff | CRDTSync/implementation.go:124-135 | element names are equal iff the IDs end in the same six characters and the ticks are equal; counter keys iff the IDs do |
| LocalData.TickEffect | CRDTSync/implementation.go:129-141 | a tick whose add is refused writes nothing; otherwise the add takes effect and then the increment, if it is accepted |
| LocalData.TickValidates | CRDT/helper.go:10-59 | every tick below 2^64 passes validation, and counter keys are not the set's key |
| Network.ObjectsCarryTheirKeys | CRDT/MemoryStore.go:47-71 | in every run every object, stored or sent, carries its key |
| Network.KindsStay | CRDTSync/implementation.go:360-376 | through any run with atomic applies a key's kind never changes |
| Network.KindsAreStable | CRDTSync/implementation.go:360-376 | no step but an install of a split apply can change a kind |
| Network.InstallChangesKindIff | CRDTSync/implementation.go:323-374 | in every run an install changes the kind of a stored object iff the snapshot lacks the key and the received object is of the other kind |
| SplitApply.KindCanChange | CRDTSync/implementation.go:323-374 | from the start, under any key, two nodes can take five steps that turn a stored set into a counter |
| Network.RunsAreBounded | CRDT/helper.go:43-48 | in every run no counter entry exceeds what was issued, and each issued total is at most a million per increment |
| Network.CounterNeverExceedsIssued | CRDT/crdt.go:325-365 | hence no counter shows more, and up to 18,446,744,073,709 increments the total does not wrap |
| Absorption.RunsAreExact | CRDT/crdt.go:318-365 | with own entries and atomic applies, every copy of a counter is exactly the absorbed operations' sum |
| Absorption.OwnEntryIsLargest | CRDT/crdt.go:318-365 | node p's entry at p is all p issued, and no copy of it is larger |
| Absorption.CountersAreExact | CRDT/crdt.go:336-365 | the value never exceeds the true total, and equals it once everything has been absorbed, directly or through others |
| Absorption.SameKnowledgeSameCounters | CRDT/crdt.go:336-365 | replicas that absorbed the same operations show the same values |
| Protocol.InvariantHolds | CRDTSync/implementation.go:122-173 | the invariant of all histories of ticking, publishing and applying nodes |
| Protocol.GapFreePrefixes | CRDTSync/implementation.go:122-172 | with atomic applies: element p-i is in a copy of the sample set iff i is below its timestamp for p, with clock {p: i+1}; p's own copy has all |
| Protocol.TimestampDecidesSet | CRDT/MemoryStore.go:121-138 | with atomic applies two copies of the sample set are equal iff their timestamps are |
| Protocol.MergeNeverChooses | CRDTSync/implementation.go:318-379 | with split applies too, every recorded clock is the one its writer issued and no two differ |
| Protocol.NothingFails | CRDTSync/implementation.go:122-142 | with split applies too, merges never fail on kind or key and ticks are never refused |
| Gap.InstallForgets | CRDTSync/implementation.go:323-374 | a split apply leaves the elements of snapshot and message |
| Gap.GapContents | CRDTSync/implementation.go:323-374 | until the install the store holds what the snapshot held and what the node added since, in every history |
| Gap.LostExactly | CRDTSync/implementation.go:323-374 | whatever happens between snapshot and install, the elements lost are exactly those the node added in between that neither snapshot nor message has |
| Gap.TickInTheGapIsLost | CRDTSync/implementation.go:323-374 | so every new element added in between is visible until the install and then lost |
| Loss.GoneForGood | CRDTSync/implementation.go:145-173 | an element that occurs nowhere and whose tick is counted is never seen again, in any continuation |
| Loss.ReturnsIff | CRDTSync/implementation.go:145-173 | in every state of every history of at least two nodes, an added element can be seen (again) iff it occurs somewhere or its tick is not counted |
| Loss.LossIsPossible | CRDTSync/implementation.go:318-379 | from every reachable state with a message on its way to an idle node, the node's next steps can be such that an element is seen and then never again |
| Loss.FirstMessage | CRDTSync/implementation.go:145-173 | such a state is reached when another node has published once |
| SplitApply.UndisturbedApplyIsAtomic | CRDTSync/implementation.go:318-379 | a split apply during which the node does nothing else has the effect of an atomic one |
| Running.HistoryIsRun | CRDTSync/implementation.go:145-173 | histories of the protocol are runs of the network; atomic ones are disciplined |
| Running.TickIsTwoSteps | CRDTSync/implementation.go:123-142 | an accepted tick is the protocol's two local steps |
| Running.CountersFollowTheirNode | CRDTSync/implementation.go:134-139 | with atomic applies no copy of a node's entry is ahead of the node's own, which is all it added |
| Running.CountersStayBounded | CRDT/crdt.go:336-342 | with split applies too, running counters never exceed what was added and do not wrap |
| Running.RunningNodesConverge | CRDTSync/implementation.go:318-379 | nodes of any history that get the same states end in equal stores |
| Knowledge.HistoryMarks | CRDT/MemoryStore.go:121-143 | with atomic applies, every timestamp in every store and message is exactly the largest tick of each node among the operations absorbed |
| Knowledge.SameKnowledgeSameSets | CRDTSync/implementation.go:318-379 | with atomic applies, nodes that absorbed the same operations have the same keys, equal timestamps and equal sample sets |
| Knowledge.SameKnowledgeSameStores | CRDTSync/implementation.go:318-379 | up to 18,446,744,073,709 increments they have equal stores, counters included |
| Shortfall.CountIsEntry | CRDTSync/implementation.go:134-139 | in every history a read of p's counter, anywhere, shows p's entry |
| Shortfall.CountLostExactly | CRDTSync/implementation.go:323-374 | whatever happens between snapshot and install, p's counter shows the snapshot's count and what p added since, modulo 2^64, and after the install the larger one of the snapshot's and the message's count |
| Shortfall.NeverAbove | CRDT/crdt.go:325-365 | no copy shows more than p added |
| Shortfall.StaysShortIff | CRDTSync/implementation.go:318-379 | in every state of every history of at least two nodes, all readers stay at least d short of what p added in every continuation iff all stores, messages and snapshots still to be installed are |
| Shortfall.CountLossIsPossible | CRDTSync/implementation.go:318-379 | from every reachable state with a message that has p's counter on its way to p between two ticks, p's next steps can be such that all readers are one more short, for good |
| Shortfall.FirstCopy | CRDTSync/implementation.go:145-173 | such a state is reached when another node has applied p's first message and published |
| SyncPass.OnePassSuffices | CRDT/crdt_test.go:1284-1300 | over a linear family, one pass brings all online nodes to the join of the online initial states, so they are equal, and leaves offline nodes unchanged, for every number and order of nodes |
| Agreement.PassAgreesIff | CRDT/readme.md:26-29 | over a family of clocks, a pass leaves the online nodes equal, for all stores, any number and order of nodes and any nodes offline, iff any two clocks of an element are order independent |
| Agreement.SettledAgree | CRDT/crdt_test.go:1284-1300 | then every online node ends with the online stores merged one after the other in the pass's order |
| Offline.MergeInto | CRDT/crdt_test.go:1315-1328 | merges one live snapshot into an engine in place; both snapshots stay as they are |
| Offline.SyncEngines | CRDT/crdt_test.go:1303-1345 | both engines merge the other's snapshot, and they share no live object afterwards |
| Offline.PruneOne | CRDT/MemoryStore.go:177-198 | pruning one of two engines that share element clocks leaves the other sound, its counters unchanged, and each clock of its sets as it was or restricted |
| Offline.SyncPersistentNodes | CRDT/crdt_test.go:1293-1306 | nothing happens if either node is offline; other nodes are untouched |
| Offline.SyncAllNodes | CRDT/crdt_test.go:1284-1300 | the final states are those of one pass over the nodes in some order; offline nodes are unchanged; the online ones are equal for clocks that are pairwise order independent, and the join for a linear family |
| Offline.PersistentEngine.LWWAdd | CRDT/crdt_test.go:1180-1198 | an offline node refuses and changes nothing; an online one does what its engine does and logs what was accepted |
| Offline.PersistentEngine.LWWRemove | CRDT/crdt_test.go:1200-1217 | the same for removes |
| Offline.PersistentEngine.CounterInc | CRDT/crdt_test.go:1219-1236 | the same for increments |
| Histories.TimestampDominates | CRDT/MemoryStore.go:121-138 | in every run, split applies and pruning included, each set's timestamp dominates every clock it records |
| Histories.UnclockedTakesEffect | CRDT/MemoryStore.go:121-138 | an add without a clock shows its element, a remove without a clock hides it, no operation affects another element |
| Histories.ClockedTakesEffectIff | CRDT/MemoryStore.go:131-135 | an operation with a clock takes effect iff the clock beats the opposite record; older records of the same kind do not count |
| Histories.AddCanHide | CRDT/MemoryStore.go:131-135 | some add with a clock hides a visible element it adds iff a remove with a non-empty clock is recorded |
| Histories.RemoveCanShow | CRDT/MemoryStore.go:131-135 | after some remove with a clock the removed element is visible iff a non-empty clock lies strictly below its add clock |
| Histories.ReplayReproduces | CRDT/MemoryStore.go:74-118 | in every run, replaying what a node accepted reproduces its store, generated clocks included, if it installed and pruned nothing |
| Histories.LoneStoreIsSets | CRDT/crdt.go:201-225 | a lone store without supplied clocks shows exactly the plain sequential sets |
| Histories.PruningCanReveal | CRDT/MemoryStore.go:177-198 | some pruning makes a hidden element visible iff its add clock is not at or below its remove clock |
| Histories.PruningCanHide | CRDT/MemoryStore.go:177-198 | some pruning hides a visible element iff it has a remove record |
| Histories.PruningKeeps | CRDT/MemoryStore.go:177-198 | no pruning changes a kind, a key, a counter's value or which elements are recorded |
| Histories.PruningActiveNodes | CRDT/MemoryStore.go:201-232 | pruning leaves the whole store unchanged iff no node in use is pruned |
| Fields.Split | main.go:385-399 | ends for every non-empty separator, with the pieces cut at the leftmost separators |
| Fields.SplitUnique | main.go:385-399 | there is one such list of pieces |
| Fields.SplitJoins | main.go:385-399 | the pieces joined give back the input and none contains the separator |
| Fields.SplitOfJoinIff | main.go:385-399 | split inverts join iff no separator begins inside a piece |
| Fields.SingleCharacter | main.go:385-399 | for one character: iff no piece contains it |
| Fields.Trim | main.go:401-413 | the part between the outermost non-space characters |
| Fields.TrimUnique | main.go:401-413 | there is one such part |
| Fields.TrimIff | main.go:401-413 | trimming takes away exactly the blanks, tabs and line feeds at both ends |
| Fields.ResultSelects | main.go:374-383 | the result has every trimmed field that is not empty, once and in order, and nothing else |
| Fields.SplitAndTrim | main.go:374-383 | the non-empty trimmed pieces in order |
| Fields.SplitAndTrimUnique | main.go:374-383 | there is one such list |

## Left out

- libp2p, topics, tickers, timeouts, logging, statistics, key files and the two message stores are not part of this model.
- Messages travel as values; JSON encoding is taken to be faithful, and entries that do not decode or have an unknown
  type, which the program skips, do not occur. A received object with a null map is not modelled.
- Locks are atomic steps. The one unlocked gap, inside `applyCRDTSync`, is modelled as separate steps.
- Clock entries and the tick counter are unbounded (the protocol's counter is assumed to stay below 2^64); counter entries and
  totals wrap at 2^64 as in the program.
- Node IDs have at least six characters, those of senders at least eight, and the suffixes of publishers differ; shorter IDs make
  the program panic. Nodes do not restart.
- Wall-clock times, the time of the last eviction and the eviction handler are left out; evicted operations are kept in a history.
- `Counter.Increment` is `IncrementWithTimestamp` without a clock. `GetOperationsSince`, `ReplayOperations` and the
  dummy `lastSync` clocks play no part in synchronisation.
- LiveObjects.LWWSet.ApplySetOp: a supplied clock may not be one that was made as a counter's timestamp, live or exported; the
  program accepts it, and a set would then change when that counter is installed and ticked.
- Engines.Engine.LWWAdd: requires the same of its clock.
- Engines.Engine.LWWRemove: requires the same of its clock.
- Engines.Engine.CounterInc: requires the same of its clock.
- Stores.MemStore.AppendOp: requires the same of its clock.
- Offline.PersistentEngine.LWWAdd: requires the same of its clock.
- Offline.PersistentEngine.LWWRemove: requires the same of its clock.
- Offline.PersistentEngine.CounterInc: requires the same of its clock.
- Stores.MemStore.ApplyMergedCRDT: the object may not be live under another key, which the program does not check.
- Isolation.RunBeside: an installed object may be neither live in the store nor installed twice, which the program does not check.
- Isolation.PruneBeside: the store may not refer to a timestamp of the snapshot. It refers to none when the snapshot is taken, and
  would only if one were supplied as the clock of an operation, or installed.
- Strings are sequences of characters, each one byte; `strings.TrimSpace` trims ASCII white space only.
- Network.PrunedReplica: which of a snapshot's element clocks are pruned with the store's is left open, where the program's heap decides it.
- Fields.Split: an empty separator in a non-empty string, for which the loop does not end, is excluded.
