# Vector-clock document log, modelled in Dafny

The system keeps a shared document consistent across clients. There is no
central coordinator. Every client logs each edit with a vector clock: one
counter per client, where the slot index is that client's ID. A client keeps
its log sorted by a total order on clocks. The order is lexicographic, so the
lowest differing slot decides, and a smaller client ID wins when two clocks
are causally concurrent. A client's document is always the replay of its log.

The model has one module per source file, plus two modules of proofs:

- `VectorClock` (`vector_clock.dfy`): clocks are `seq<nat>`.
  - `Increment`, `Next` (the element-wise max merge) and `CompareTo` are
    specification functions.
  - `ComputeIncrement`, `ComputeNext` and `ComputeCompareTo` follow the
    source's array copy and `for` loops, and are proved equal to those
    functions.
  - Lemmas prove that `CompareTo` is a total order and that it extends the
    causal order.
- `Document` (`document.dfy`): `Node` is a datatype. `Document` is a class
  whose `nodes` field the edits reassign. `FindNodeIndex` is the source's
  indexed loop, proved equal to the search function `IndexOf`.
- `ChangeEvent` (`change_event.dfy`): the four edits form a closed datatype.
  - `Effect` is what an edit does to a node list.
  - `Apply` performs the edit in place on a `Document`.
  - `Replay` folds a list of events over the empty document.
  - A move to an index outside the list is where the source throws
    `IndexOutOfBoundsException`. There `Effect` is `None` and `Apply`
    reports `ok == false`.
- `DocumentManager` (`document_manager.dfy`): the log functions
  `InsertionIndex` and `Insert`, and the `DocumentManager` class.
  - The class has the fields `document`, `changes`, `currentClock` and
    `ownedClockIndex`, and its invariant `Valid()`.
  - `Valid()` says: the clocks all have one length, the owned index is in
    range, the log is sorted, `document` is the replay of the log, and the
    local clock is at least every logged clock.
- `Convergence` (`convergence.dfy`): for changes with pairwise-distinct
  clocks, the order in which they arrive does not change the resulting log.
- `Scenarios` (`scenarios.dfy`): concrete runs taken from the demonstration
  driver `Main.java`.

`wrappers.dfy` holds the `Option` type.

Two facts about the code shape the model:
- The manager's constructor accepts any starting clock.
- A move to a position outside the list throws `IndexOutOfBoundsException`
  from `ArrayList.add` (ChangeEvent.java:51); there `Effect` is `None`.

## Model

| member | source | states |
|---|---|---|
| `VectorClock.Zero` | src/main/java/ch/fhnw/woweb/VectorClock.java:87-89 | a new clock has one slot per client, all zero |
| `VectorClock.Increment` | src/main/java/ch/fhnw/woweb/VectorClock.java:99-105 | same length; the owned slot is one greater; every other slot is unchanged |
| `VectorClock.ComputeIncrement` | src/main/java/ch/fhnw/woweb/VectorClock.java:99-105 | copying the counters into a fresh array and raising the owned slot yields `Increment`; the input clock is a value and is not changed |
| `VectorClock.Next` | src/main/java/ch/fhnw/woweb/VectorClock.java:107-114 | the merge is at least both operands, and each slot is one of the two operands' slots, so it is their maximum |
| `VectorClock.ComputeNext` | src/main/java/ch/fhnw/woweb/VectorClock.java:107-114 | the loop that fills a fresh array with `Math.max` of each slot yields `Next` |
| `VectorClock.NextCommutativeIdempotent` | src/main/java/ch/fhnw/woweb/VectorClock.java:110-112 | `Next(a, b) == Next(b, a)` and `Next(a, a) == a` |
| `VectorClock.NextIsLeastUpperBound` | src/main/java/ch/fhnw/woweb/VectorClock.java:110-112 | any clock at least both operands is at least their merge |
| `VectorClock.CompareTo` | src/main/java/ch/fhnw/woweb/VectorClock.java:117-126 | the comparison is 0 exactly when the clocks are equal |
| `VectorClock.ComputeCompareTo` | src/main/java/ch/fhnw/woweb/VectorClock.java:117-126 | the loop that returns the first nonzero difference, or 0 after the loop, yields `CompareTo` |
| `VectorClock.CompareToFirstDifference` | src/main/java/ch/fhnw/woweb/VectorClock.java:119-124 | at the first index where the clocks differ, the result is the difference of those counters |
| `VectorClock.CompareToAntisymmetric` | src/main/java/ch/fhnw/woweb/VectorClock.java:117-126 | swapping the operands negates the result |
| `VectorClock.CompareToTransitive` | src/main/java/ch/fhnw/woweb/VectorClock.java:117-126 | ordered-strictly-before is transitive |
| `VectorClock.LessEqTransitive` | src/main/java/ch/fhnw/woweb/VectorClock.java:117-126 | ordered-at-or-before is transitive |
| `VectorClock.CompareToIsTotalOrder` | src/main/java/ch/fhnw/woweb/VectorClock.java:77-81 | on clocks of one length, at-or-before is reflexive, antisymmetric and transitive; any two clocks are comparable; strictly-before is its complement reversed |
| `VectorClock.TieBreakByLowestIndex` | src/main/java/ch/fhnw/woweb/VectorClock.java:77-81 | `[1, 0]` and `[0, 1]` are causally concurrent, yet `[1, 0]` compares greater |
| `VectorClock.CompareToRespectsCausality` | src/main/java/ch/fhnw/woweb/VectorClock.java:62-69 | if `a` is at least `b` in every slot and greater in one, `CompareTo(a, b) > 0` |
| `VectorClock.IncrementIsAfter` | src/main/java/ch/fhnw/woweb/VectorClock.java:99-105 | an incremented clock is causally after, and compares greater than, the clock it came from |
| `Document.NewNode` | src/main/java/ch/fhnw/woweb/Document.java:37-42 | a new node has the given ID and author and empty text |
| `Document.IndexOf` | src/main/java/ch/fhnw/woweb/Document.java:18-25 | -1 exactly when no node has the ID; otherwise an in-range index whose node has the ID, with no earlier node having it |
| `Document.Document.FindNodeIndex` | src/main/java/ch/fhnw/woweb/Document.java:18-25 | the indexed loop with early return yields `IndexOf` of the current nodes |
| `Document.Document.constructor` | src/main/java/ch/fhnw/woweb/Document.java:10-12 | a new document has no nodes |
| `Document.Document.Copy` | src/main/java/ch/fhnw/woweb/Document.java:14-16 | the copy has the same nodes in the same order |
| `ChangeEvent.Event.Effect` | src/main/java/ch/fhnw/woweb/ChangeEvent.java:14-69 | what each edit does to a node list, or None where the source throws |
| `ChangeEvent.EffectOutcome` | src/main/java/ch/fhnw/woweb/ChangeEvent.java:14-69 | an edit fails exactly for a move of a present node to a position outside the list; a creation adds one node, a removal of a present node drops one, and update and move keep the size |
| `ChangeEvent.Event.Apply` | src/main/java/ch/fhnw/woweb/ChangeEvent.java:3-4 | applying any edit in place succeeds exactly when `Effect` does, and then leaves `Effect`'s nodes; only a move can fail, and it leaves the list with the node already removed |
| `ChangeEvent.ApplyCreate` | src/main/java/ch/fhnw/woweb/ChangeEvent.java:14-17 | the document's new nodes are the creation's `Effect` on the old nodes |
| `ChangeEvent.ApplyUpdate` | src/main/java/ch/fhnw/woweb/ChangeEvent.java:30-35 | the document's new nodes are the update's `Effect` on the old nodes |
| `ChangeEvent.ApplyMove` | src/main/java/ch/fhnw/woweb/ChangeEvent.java:47-53 | succeeds exactly when the move's `Effect` does, and then leaves its nodes; on failure the first node with the ID has been removed and not put back |
| `ChangeEvent.ApplyRemove` | src/main/java/ch/fhnw/woweb/ChangeEvent.java:63-69 | the document's new nodes are the removal's `Effect` on the old nodes |
| `ChangeEvent.CreateNodeAppends` | src/main/java/ch/fhnw/woweb/ChangeEvent.java:14-17 | a creation appends one node whose ID is the old node count, with the given author and empty text; earlier nodes are untouched |
| `ChangeEvent.UpdateNodeReplacesText` | src/main/java/ch/fhnw/woweb/ChangeEvent.java:30-35 | for a present ID, only the text of the first node with that ID changes; length, order, IDs and other nodes stay |
| `ChangeEvent.AbsentNodeIsNoOp` | src/main/java/ch/fhnw/woweb/ChangeEvent.java:29-69 | update, move and remove of an ID no node has leave the nodes unchanged |
| `ChangeEvent.MoveNodeInRange` | src/main/java/ch/fhnw/woweb/ChangeEvent.java:47-53 | for a present ID, a move succeeds exactly when `0 <= newIndex < size` |
| `ChangeEvent.MoveNodeRelocates` | src/main/java/ch/fhnw/woweb/ChangeEvent.java:47-53 | a move keeps the length and the multiset of nodes, puts the moved node at `newIndex`, and keeps the other nodes in their relative order |
| `ChangeEvent.RemoveNodeDropsFirst` | src/main/java/ch/fhnw/woweb/ChangeEvent.java:63-69 | a removal drops exactly the first node with the ID; the rest keep their order and the length drops by one |
| `ChangeEvent.EffectKeepsIdsPermutation` | src/main/java/ch/fhnw/woweb/ChangeEvent.java:14-53 | create, update and move keep the node IDs a permutation of `0 .. size - 1` |
| `ChangeEvent.IdsPermutationWithoutRemoves` | src/main/java/ch/fhnw/woweb/ChangeEvent.java:14-17 | a document replayed from events without removals has IDs that are a permutation of `0 .. size - 1`, and its size is the number of creations |
| `ChangeEvent.CreatedNodeId` | src/main/java/ch/fhnw/woweb/ChangeEvent.java:14-17 | without removals, the node a creation appends gets the number of earlier creations as its ID: the k-th created node has ID k - 1 |
| `ChangeEvent.Replay` | src/main/java/ch/fhnw/woweb/DocumentManager.java:70-75 | the nodes obtained by applying the events in order to an empty document, or None once an edit fails (its properties: `ReplayAppend`, `ReplayFailurePersists`, `ReplaySize`) |
| `ChangeEvent.ReplaySize` | src/main/java/ch/fhnw/woweb/DocumentManager.java:70-75 | a successful replay never holds more nodes than the log has creations |
| `ChangeEvent.ReplayAppend` | src/main/java/ch/fhnw/woweb/DocumentManager.java:58-75 | applying one more event to the replay of a log is the replay of the longer log, so the tail path agrees with a rebuild |
| `ChangeEvent.ReplayFailurePersists` | src/main/java/ch/fhnw/woweb/DocumentManager.java:70-75 | if a prefix of the log fails to replay, the whole log fails |
| `DocumentManager.Events` | src/main/java/ch/fhnw/woweb/DocumentManager.java:94-101 | a log is a sequence of `Change` records, each pairing a clock with an event; its events are one per change, in log order |
| `DocumentManager.IsNextClock` | src/main/java/ch/fhnw/woweb/DocumentManager.java:85-92 | true exactly when the index lies before the log, or the entry there is at or before the new clock in the total order |
| `DocumentManager.InsertionIndex` | src/main/java/ch/fhnw/woweb/DocumentManager.java:77-92 | the insertion index is at most the log length; every entry from it on compares strictly greater than the clock; the entry before it compares at or below the clock |
| `DocumentManager.ScanBack` | src/main/java/ch/fhnw/woweb/DocumentManager.java:77-92 | scanning back from entry `n - 1`, the result is at most `n`, every scanned entry from it on compares strictly greater than the clock, and the entry before it compares at or below |
| `DocumentManager.InsertionIndexUnique` | src/main/java/ch/fhnw/woweb/DocumentManager.java:77-92 | those two conditions determine the insertion index |
| `DocumentManager.DocumentManager.ComputeInsertionIndex` | src/main/java/ch/fhnw/woweb/DocumentManager.java:77-83 | the backward `while` scan using `isNextClock` yields `InsertionIndex` |
| `DocumentManager.LaterClockAtTail` | src/main/java/ch/fhnw/woweb/DocumentManager.java:33-37 | a clock causally after every logged clock is inserted at the tail |
| `DocumentManager.AppendAtTail` | src/main/java/ch/fhnw/woweb/DocumentManager.java:58-62 | inserting at the tail is appending, and appends the event to the replayed events |
| `DocumentManager.Insert` | src/main/java/ch/fhnw/woweb/DocumentManager.java:58-66 | the log with the change spliced in at its insertion index (`changes.add(i, change)`, or `changes.add(change)` at the tail), one entry longer; what it keeps is proved beside it: `InsertShifts` (the change at the index, the rest in place or shifted by one), `InsertMembers` (nothing lost) and `InsertKeepsSorted` (still sorted) |
| `DocumentManager.InsertMembers` | src/main/java/ch/fhnw/woweb/DocumentManager.java:50-68 | inserting adds exactly the new change: one more entry, the same multiset plus the change |
| `DocumentManager.InsertShifts` | src/main/java/ch/fhnw/woweb/DocumentManager.java:66 | the entries before the insertion index stay in place, the change is at the index, and the rest shift up by one |
| `DocumentManager.InsertKeepsSorted` | src/main/java/ch/fhnw/woweb/DocumentManager.java:50-68 | inserting keeps the clock lengths uniform and keeps a sorted log sorted |
| `DocumentManager.DocumentManager.Valid` | src/main/java/ch/fhnw/woweb/DocumentManager.java:5-17 | the manager's invariant: one clock length, the owned index in range, the log sorted, the document its replay, the local clock at least every logged clock; so no logged change is causally after the local clock |
| `DocumentManager.DocumentManager.constructor` | src/main/java/ch/fhnw/woweb/DocumentManager.java:19-22 | a new manager holds the given clock and owned index, an empty log and an empty document, and is valid |
| `DocumentManager.DocumentManager.GetDocument` | src/main/java/ch/fhnw/woweb/DocumentManager.java:24-26 | returns a fresh document with the current nodes, with no precondition; in a valid manager these are the replay of the log |
| `DocumentManager.DocumentManager.ApplyLocal` | src/main/java/ch/fhnw/woweb/DocumentManager.java:33-37 | the local clock becomes `Increment(old clock, owned)` and is returned; it compares strictly greater than the old clock; it always lands at the tail, so the log grows by `(clock, event)` and stays valid |
| `DocumentManager.DocumentManager.ApplyExternal` | src/main/java/ch/fhnw/woweb/DocumentManager.java:44-48 | the event is logged under its own clock by `Insert`; the local clock becomes `Next(Increment(old, owned), eventClock)`, which compares strictly greater than the old clock; the manager stays valid |
| `DocumentManager.DocumentManager.Apply` | src/main/java/ch/fhnw/woweb/DocumentManager.java:50-68 | the log becomes `Insert(old log, change)` and stays sorted; the document is the replay of the new log on both the tail path and the rebuild path; it fails exactly when the new log cannot be replayed |
| `DocumentManager.DocumentManager.RebuildDocument` | src/main/java/ch/fhnw/woweb/DocumentManager.java:70-75 | clearing the document and applying every logged event in order yields `Replay` of the log, or fails exactly when the replay fails |
| `Convergence.InsertAll` | src/main/java/ch/fhnw/woweb/DocumentManager.java:50-68 | the log after one insertion per arrival, in arrival order: one entry more per arrival, every clock of one length |
| `Convergence.InsertAllMembers` | src/main/java/ch/fhnw/woweb/DocumentManager.java:50-68 | inserting a sequence of arrivals adds exactly those changes to the log |
| `Convergence.InsertAllSorted` | src/main/java/ch/fhnw/woweb/DocumentManager.java:50-68 | inserting arrivals in any order keeps a sorted log sorted |
| `Convergence.SortedDistinctIsStrict` | src/main/java/ch/fhnw/woweb/VectorClock.java:57-59 | a sorted log with pairwise-distinct clocks is strictly sorted |
| `Convergence.InsertKeepsStrict` | src/main/java/ch/fhnw/woweb/DocumentManager.java:50-68 | inserting a change under a clock not yet logged keeps a strictly sorted log strictly sorted |
| `Convergence.InsertAllStrict` | src/main/java/ch/fhnw/woweb/VectorClock.java:57-59 | arrivals with pairwise-distinct new clocks build a strictly sorted log |
| `Convergence.SortedArrangementUnique` | src/main/java/ch/fhnw/woweb/VectorClock.java:57-59 | a strictly sorted log is the only sorted arrangement of its changes |
| `Convergence.ArrivalOrderIrrelevant` | src/main/java/ch/fhnw/woweb/VectorClock.java:57-59 | two clients receiving the same changes with pairwise-distinct clocks, in any two orders, end with equal logs and equal replayed documents |
| `Scenarios.LocalEventsDocument` | src/main/java/ch/fhnw/woweb/Main.java:21-34 | the driver's five local events give node 1 then node 0, with the texts as updated, and nodes numbered in creation order |
| `Scenarios.DelayedMoveIsOverridden` | src/main/java/ch/fhnw/woweb/Main.java:61-63 | the delayed move under `[10, 8]` is spliced in before client 0's last move under `[11, 7]`, so node 2 ends at position 0 |
| `Scenarios.ConflictEventsDocument` | src/main/java/ch/fhnw/woweb/Main.java:48-63 | replaying the driver's whole spliced log gives nodes 2, 1, 0 |
| `Scenarios.TwoArrivals` | src/main/java/ch/fhnw/woweb/DocumentManager.java:50-68 | two changes, `b` ordered before `a`, arriving in either order at an empty log give the log `[b, a]` |
| `Scenarios.TwoClientsConverge` | src/main/java/ch/fhnw/woweb/VectorClock.java:56-59 | two clients that each create a node and then exchange them end with the same log and document |

## Left out

- `getCounters`: clocks are values here, so the copy it returns is the clock itself. Only the driver uses it.
- The `toString` methods: they only format text.
- Negative counters: `VectorClock(int[])` accepts any array, and the driver lowers a counter (Main.java:115). Counters here are `nat`, so a clock with a negative counter is not modelled.
- Java `int` overflow: counters are `nat`. `Increment` does not wrap at 2^31. `CompareTo` returns the exact difference, where Java's subtraction could overflow and then have the wrong sign.
- The Java `assert` statements (equal clock lengths, owned index in range, `prevChangeIndex < changes.size()`): they are `requires` clauses. With assertions disabled, Java would instead fail on an out-of-bounds array access or misread a shorter clock.
- `DocumentManager.DocumentManager.constructor`: it requires the owned index to be in range. The source does not check this, but its first `increment` would throw.
- Heap aliasing:
  - `VectorClock(int[])` keeps the caller's array uncopied. Clocks here are values.
  - `Document`'s copy constructor is shallow, and `Node.text` is mutable, so an incremental `UpdateNode` also changes an earlier `getDocument` snapshot. Here `Node` is a value, and a snapshot never changes.
- `DocumentManager.DocumentManager.Apply`, `ApplyLocal`, `ApplyExternal`: after a failed move (the source's `IndexOutOfBoundsException`), only the log and the clock are stated, and `Valid()` is no longer promised.
  - The log is as the source leaves it: unchanged on the tail path, spliced on the rebuild path.
  - The clock is the incremented one; the merge is not reached.
  - The document is not stated. The source leaves it with a node removed, or only partly rebuilt.
- The open `ChangeEvent` interface: it is a closed datatype with a `match`.
- The demonstration driver `Main.java`: only the concrete runs in `Scenarios` come from it. Its `receiveEvent` does not advance the simulated external clock, so two consecutive received events share the clock `[5, 6]`. Convergence is therefore stated only for pairwise-distinct clocks, as the class comment of VectorClock.java:57-59 assumes (each event carries a unique clock).
- Concurrency: the manager is sequential, as in the source.
