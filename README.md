# C-GarbageCollector in Dafny

A model of the mark-and-sweep collector of a toy VM (`gc.c`, `gc.h`). The VM
has a fixed root stack of `MAX_STACK_SIZE = 256` slots whose bottom entry is
a `START_OF_STACK` sentinel object. It also keeps a singly-linked registry of
every object it has allocated: `head` is the first node (the sentinel's) and
`tail` is documented as the last node. Allocation pushes the new object on
the stack and appends it to the registry. `popFrame` pops back to the nearest
frame marker. `markAll` marks, depth first, everything reachable from the
stack. `sweep` unlinks the registry nodes whose object is unmarked and clears
the marks of the others.

The model keeps the program's imperative shape:

- **Objects and nodes.** `Objects.Obj` is the object record. It has the
  `marked` flag, `head`/`tail` and an `objects: array<Obj?>` for arrays.
  `Collector.Node` is a registry node, with its `next` link.
- **The VM.** `Collector.VM` holds the `stack` array, `stackSize`, `head`
  and `tail`.
- **The registry.** A ghost sequence `nodes` lists the registry nodes in
  link order. `Registry()` is the list of their objects.
- **Reachability.** `Reachability` defines it over paths in a snapshot of
  the reference graph (`RefGraph()`).

Each operation is a method proved against that specification:

- **Mark.** `mark` ensures that the marked set grows by exactly what is
  reachable from its argument through unmarked objects.
- **Sweep.** `sweep` ensures that the registry becomes the sentinel followed
  by the marked objects, in their old order, with their marks cleared.
- **Gc.** `Gc` combines the two: on a VM with no stray marks, the registry
  becomes exactly the sentinel plus the objects reachable from the stack.
  A second collection with nothing changed in between removes nothing.

`Scenarios` replays runs of the repository's tests against these contracts.

Where the header and the code disagree, the model follows `gc.c`:

- **Arrays.** `gc.h:32-33` declares an array as a bare `struct object **`,
  and its comment at `gc.h:12-13` calls arrays null terminated. `gc.c:60-68`
  and `gc.c:142-146` instead use an explicit `size` and the `objects`
  buffer. The model gives each array an explicit length (the Dafny array's
  `Length`). A null slot is skipped by mark, not treated as an end marker.
- **`newVM`.** `newVM` (`gc.c:78-96`) ends without a `return`. The model
  returns the VM it builds.

## Model

| member | source | states |
|---|---|---|
| Objects.Obj.constructor | gc.c:38-44 | a new object has the requested kind, is unmarked, and holds no references |
| Collector.VM.constructor | gc.c:78-96 | newVM: `stackSize == 1`, `stack[0]` is a fresh START_OF_STACK object, every other slot is null, the registry is that one object in a single fresh node, and the sentinel's mark is the uninitialised value passed in; the VM invariant holds |
| Collector.VM.SentinelOnly | gc.c:85-95 | a VM whose only object is the sentinel has exactly one registered object and satisfies the consistency invariant |
| Collector.FilledSlots | gc.c:81-83 | the slot loops of newVM and newArray: a fresh buffer of `n` slots, each equal to the fill value |
| Collector.AppendObject | gc.c:70-76 | appendObject: a fresh node holding the object, with no successor, linked after the old tail |
| Collector.Node.constructor | gc.c:71-73 | a new registry node holds the given object and has no successor, as appendObject builds it (and newVM at gc.c:88-90) |
| Collector.VM.PushToVM | gc.c:102-107 | pushToVM: needs `stackSize + 1 < 256`, because the overflow check follows the write; writes the object at the old top, increments `stackSize`, appends it as the new last registry node, and changes no other slot or node |
| Collector.VM.NewObject | gc.c:38-44 | newObject: a fresh unmarked object of the kind, on top of the stack and last in the registry, held by one fresh node appended after the old nodes, which becomes `tail`; no other slot or node changes, and the consistency and no-stray-mark invariants are preserved |
| Collector.VM.NewInt | gc.c:45-49 | newInt: as newObject, for a VALUE holding `value` |
| Collector.VM.NewReferencePair | gc.c:50-55 | newReferencePair: as newObject, for a REFERENCE_PAIR holding the given head and tail; consistency is kept when both are null or registered |
| Collector.VM.NewFrameMarker | gc.c:56-59 | newFrameMarker: as newObject, for a FRAME_MARKER |
| Collector.VM.NewArray | gc.c:60-68 | newArray: as newObject, for an ARRAY of `size` fresh slots, every slot equal to the fill value; the fill object is not pushed a second time, so the stack grows by one |
| Collector.VM.PopFromVM | gc.c:108-113 | popFromVM: needs `stackSize >= 2`, because the underflow check follows the decrement; returns the former top and decrements `stackSize`; the registry is unchanged and the sentinel is never popped; it does not read `tail`, so it also runs on a VM whose `tail` is stale, and keeps the VM invariant when it held |
| Collector.VM.PushFrame | gc.c:114-117 | pushFrame: a fresh FRAME_MARKER on top of the stack and last in the registry, in one fresh node appended as `tail`; all other slots unchanged |
| Collector.NearestFrame | gc.c:119-129 | the index of the topmost frame marker of a stack, with no marker above it, or -1 if there is none |
| Collector.FrameBalance | gc.c:119-129 | after a frame marker is pushed on a stack and then any number of non-marker objects, the nearest frame marker is the pushed one |
| Collector.VM.PopFrame | gc.c:119-129 | popFrame: needs a frame marker in `stack[1..stackSize)`, because the START_OF_STACK branch at gc.c:122-124 can never run (popFromVM's check fires first); pops down to the nearest frame marker and removes it too; the registry is unchanged; like popFromVM, it also runs when `tail` is stale |
| Collector.Mark | gc.c:133-147 | mark: the marked set grows by exactly the objects reachable from the argument without passing through already-marked objects; a null argument or an already-marked object adds nothing, which is what stops the recursion on cycles; no reference changes |
| Collector.MarkChildren | gc.c:139-146 | after the object's own flag is set, mark adds exactly what is reachable from its children: a pair's head then tail, an array's slots, nothing for the other kinds |
| Collector.MarkSlots | gc.c:142-146 | the array loop of mark: slot by slot, the marked set grows by what is reachable from the slots visited so far |
| Collector.MarkRoots | gc.c:149-151 | the loop of markAll: after marking from each of the first `stackSize` slots in turn, the marked set is the old one plus everything reachable from those slots through unmarked objects; the reference graph is unchanged |
| Collector.FilledHolds | gc.c:60-68 | an array whose every slot holds the fill object refers only to objects of any set holding that object |
| Collector.VM.MarkAll | gc.c:148-152 | markAll: the marked objects become the old marked ones plus everything reachable from `stack[0..stackSize)` through unmarked objects; starting with no stray marks, they become exactly the objects reachable from the stack; the VM's fields, the registry and every reference are unchanged |
| Collector.SurvivorsMembers | gc.c:156-170 | an object survives exactly when it was in the sequence and marked |
| Collector.SurvivorsAll | gc.c:156-170 | when every object is marked, sweep keeps all of them |
| Collector.SurvivorsAgree | gc.c:156-170 | two mark sets that agree on the registry's objects keep the same objects |
| Collector.Unlink | gc.c:160-163 | `prev->next = current->next` removes exactly the node after `prev` from the chain, and the rest stays linked in order |
| Collector.DropStep | gc.c:160-163 | one sweep step on a node whose object is unmarked: `prev->next = current->next` unlinks it, `current` moves to the new successor of `prev`, and the loop invariant holds with that node gone from the list |
| Collector.KeepStep | gc.c:165-167 | one sweep step on a node whose object is marked: the mark is cleared, the node joins the kept prefix, `prev` moves to it, and the loop invariant holds |
| Collector.SweepStep | gc.c:159-168 | one iteration of the sweep loop keeps the loop invariant: an unmarked node is unlinked; a marked node is kept, its mark cleared, and `prev` advances |
| Collector.SweepList | gc.c:156-170 | the sweep loop from the head node: the list becomes the head node followed by the nodes whose object was marked, in their old order; every later object ends unmarked; the head object's mark is untouched; the returned node is the last one kept, the loop's final `prev` |
| Collector.SweepFrom | gc.c:156-170 | the sweep loop from the head node together with what the resulting list inherits from the old one: the head followed by the marked objects in order, unmarked and none of them a START_OF_STACK; the head's mark untouched; only old nodes; and the returned last node kept is the old last node exactly when that node is the head or its object was marked, the old last node being out of the list otherwise |
| Collector.KeptNodes | gc.c:156-170 | sweep keeps only nodes that were already in the list; it adds none |
| Collector.LastKept | gc.c:156-170 | the old last node is still the last node after sweep exactly when it is the head node or its object was marked; otherwise it is no longer in the list |
| Collector.VM.SweepAsWritten | gc.c:156-170 | sweep as written, on any VM whose stack and list are well formed, including one whose `tail` an earlier sweep left stale; its ghost argument is the old last node: the registry becomes the sentinel followed by the marked objects in order, marks cleared except the sentinel's, and no registered object's references change; `tail` is never updated, and the last node kept is the old last node exactly when that node is the sentinel's or its object was marked, the old last node being out of the list otherwise; every node left was in the list before |
| Collector.VM.Sweep | gc.c:156-170 | sweep with `tail` moved to the last kept node: the same registry and marks as the sweep as written, no node added, and the VM invariant, including `tail` being the last node, holds afterwards |
| Collector.VM.RegistryObjects | gc.h:52-55 | the registry starts with the sentinel and holds it nowhere else, and the set of registered objects is the set of objects in the list |
| Collector.VM.QuiescentMarks | gc.c:165 | when no object other than the sentinel is marked, the marked set is at most the sentinel and is closed under references |
| Collector.VM.QuiescentMarking | gc.c:148-152 | on a consistent VM with no stray marks, what markAll will have marked, the old marks plus what it reaches, is exactly the set of objects reachable from the stack |
| Collector.VM.CollectedRegistry | gc.c:172-175 | marking from the roots and sweeping leaves the sentinel followed by exactly the reachable objects, in registry order |
| Collector.VM.ReachableConsistent | gc.c:172-175 | a registry of exactly the reachable objects satisfies consistency: every root and every reference held is registered, and everything registered is reachable |
| Collector.VM.AllSurvive | gc.c:172-175 | when every registered object is reachable, a collection keeps the whole registry |
| Collector.VM.Collected | gc.c:172-175 | a mark from a VM with no stray marks followed by a sweep leaves the sentinel plus exactly the reachable objects, in order; the VM is consistent afterwards and everything in it is reachable; when everything was already reachable, the registry is unchanged |
| Collector.VM.Gc | gc.c:172-175 | gc with the corrected `Sweep`, which moves `tail` to the last node kept, in place of the sweep as written: the registry becomes the sentinel followed by the objects marked before or reachable from the stack; starting with no stray marks, it becomes exactly the sentinel plus the reachable objects, the VM stays consistent, and a second gc with no change in between leaves the registry unchanged; every node left was in the list before |
| Collector.VM.GcAsWritten | gc.c:172-175 | gc exactly as written (markAll, then the sweep that never moves `tail`), on any consistent VM with a well-formed list, including one that an earlier gc left with a stale `tail`: the same registry as gc; starting with no stray marks, exactly the reachable objects stay, the VM is consistent and everything in it reachable, and when everything was reachable the registry is unchanged; `tail` itself never changes; the last node kept is the old last node exactly when that node is the sentinel's or its object was marked before or reached by marking, the old last node being out of the list otherwise; every node left was in the list before |
| Collector.VM.Unaffected | gc.h:19-35 | a client write to the references of one registered object (as the tests do with `r1->head = r2`) keeps the VM invariants when the new references are registered |
| Collector.VM.OnlyMarksChanged | gc.c:133-147 | a step that changes only marks keeps the registry, the roots, the reference graph and consistency |
| Reachability.GraphOfUnchanged | gc.c:133-147 | the reference graph of a set of objects depends only on their references, so changing marks leaves it as it was |
| Reachability.ClosedFromHolds | gc.h:19-35 | a set of objects that refer only to one another gives a closed reference graph |
| Reachability.HoldsFromClosed | gc.h:19-35 | conversely, a part of the graph closed under references consists of objects that refer only into that part |
| Reachability.ReachUnfold | gc.c:138-146 | flagging an object and then marking from its children reaches exactly what is reachable from the object |
| Reachability.ReachExtend | gc.c:148-152 | marking from some roots and then from one more root, each pass skipping what is marked, reaches exactly what is reachable from all of them |
| Reachability.ReachFromAvoided | gc.c:136-137 | nothing is reached from an object that is already marked |
| Reachability.ReachClosedMarks | gc.c:172-175 | when the marked objects refer only to marked objects, marking from the roots yields the marked objects plus the reachable ones |
| Reachability.ReachableClosed | gc.c:133-147 | whatever a reachable object refers to is reachable |
| Reachability.RootReachable | gc.c:148-152 | every non-null root is reached, unless already marked |
| Reachability.ReachLeaves | gc.c:139-146 | roots that hold no references reach only themselves |
| Reachability.ReachRestrict | gc.c:172-175 | reachability from the roots is the same in the graph cut down to the reachable objects: equal sets, each included in the other |
| Scenarios.OneInt | tests.c:39-46 | newVM then newInt: the registry and the stack are the sentinel and the integer, which holds the value given; consistent, with no stray marks |
| Scenarios.TestNewInt | tests.c:39-46 | testNewInt: the integer allocated with 7 holds 7 |
| Scenarios.SecondInt | tests.c:82-87 | a second newInt joins both the registry and the top of the stack, in one fresh node |
| Scenarios.TwoInts | tests.c:82-87 | newVM and two integers as one run: every node and object the VM holds was allocated by the run |
| Scenarios.PopSecond | tests.c:149-156 | popping the second integer removes it from the roots; it stays registered, in the tail node |
| Scenarios.MarkFirstOnly | tests.c:149-168 | markAll on that state marks the first integer and leaves the popped second one unmarked; the registry still holds 3 objects |
| Scenarios.StaleTail | tests.c:170-200 | sweep on that state leaves 2 registered objects, the sentinel and the first integer, and leaves `tail` designating a node outside the list |
| Scenarios.PairAndPop | tests.c:82-117 | a reference pair of the two integers, then a pop: 3 roots remain and 4 objects stay registered; the 4 roots before the pop are asserted on the way |
| Scenarios.TestVmLinkedList | tests.c:97-117 | testVmLinkedList as one run: 3 objects on the stack and 4 in the registry (the 4 on the stack before the pop are asserted inside `PairAndPop`) |
| Scenarios.TestMarkAndSweep | tests.c:170-200 | testMarkAndSweep as one run: 2 objects on the stack and 2 registered after the sweep, which leaves `tail` outside the list; the 2 on the stack and 3 registered after markAll are asserted on the way |
| Scenarios.IntOnTop | gc.c:45-49 | newInt seen through the roots: the roots grow by the new integer |
| Scenarios.MarkerOnTop | gc.c:114-117 | pushFrame seen through the roots: the roots grow by a frame marker |
| Scenarios.FrameWithTwoInts | tests.c:121-129 | pushFrame and two newInts grow the stack by 3 and the registry by 3 |
| Scenarios.PopFrameBack | tests.c:134-141 | popFrame after such a frame brings the roots back to what they were before pushFrame |
| Scenarios.TwoFrames | tests.c:121-129 | newVM and two frames of two integers each: 7 objects on the stack |
| Scenarios.TestFrameMarkers | tests.c:119-147 | testFrameMarkers as one run: the two popFrames leave 4 and then 1 object on the stack |
| Scenarios.ThirdIntPopped | tests.c:289-298 | a third integer pushed and popped stays registered as the fourth object, in the tail node, while 3 roots remain; the 4 roots before the pop are asserted on the way |
| Scenarios.ThreeIntsOnePopped | tests.c:289-298 | the run of testGC up to its gc, as one run, with everything the VM holds allocated by it |
| Scenarios.PoppedUnreachable | tests.c:289-298 | on that state, the two integers still on the stack are reachable and the popped one is not |
| Scenarios.GcOnFour | gc.c:172-175 | gc on four registered objects keeps the sentinel followed by the reachable ones, in order |
| Scenarios.GcDropsPopped | tests.c:299-303 | gc with the corrected sweep (`Collector.VM.Gc`) collects only the popped integer: the registry becomes the sentinel and the two integers on the stack, and the VM invariant holds |
| Scenarios.TestGC | tests.c:289-304 | testGC as one run, with the corrected sweep: 3 objects on the stack and 3 registered; the 3 on the stack and 4 registered before gc are asserted on the way |
| Scenarios.PoppedUnmarked | tests.c:289-303 | on the state before testGC's gc, the two integers on the stack are among what markAll will have marked and the popped one is not |
| Scenarios.PoppedSurvivors | tests.c:289-303 | hence the first two integers survive the mark and the popped one does not |
| Scenarios.GcAsWrittenOnFour | gc.c:172-175 | gc as written on four registered objects with the last in the tail node: the survivors stay, and `tail` leaves the list when the last object is not among them |
| Scenarios.GcAsWrittenStale | tests.c:299-303 | gc as written on testGC's state: the registry is the sentinel and the two integers, but `tail` designates the popped integer's node, which is no longer in the list, so the VM invariant fails |
| Scenarios.GcAsWrittenAgain | gc.c:172-175 | gc as written once more on that state: everything registered is reachable, so the registry stays the sentinel and the two integers, and `tail` stays outside the list |
| Scenarios.TestGCAsWrittenTwice | tests.c:289-304 | the run of testGC with gc exactly as written, followed by a second gc: the first collects the popped integer and leaves `tail` stale, and the second runs from that state and keeps the registry, with `tail` still outside the list |
| Scenarios.GcReaching | gc.c:172-175 | gc from a VM with no stray marks keeps exactly the reachable objects, all reachable afterwards, and adds no node |
| Scenarios.GcKeepsAll | gc.c:172-175 | gc when everything registered is reachable keeps the registry |
| Scenarios.GcTwice | gc.c:172-175 | two gcs in a row leave what one leaves |

## Left out

- `printObject` (`gc.c:6-37`) only prints diagnostics and has no effect on collection.
- `deleteVM` (`gc.c:97-101`) is teardown. `malloc`/`free` are not modelled: a swept node simply leaves `nodes`.
- The leaks are not expressible in the model: sweep frees neither the object nor an array's buffer (`gc.c:162`).
- Every `assert` abort (`gc.c:106`, `gc.c:111`, `gc.c:124`) is a precondition, not a runtime failure. This covers the pushToVM overflow, the popFromVM underflow, and popFrame running off the bottom of the stack.
- The uninitialised `marked` byte of the sentinel (`gc.c:85-86`) is the constructor's `sentinelMark` parameter. Sweep never reads or clears it. The "no stray marks" invariant (`Quiescent`) therefore covers every object except the sentinel.
- The payload union (`gc.h:22-34`) is modelled as separate fields.
  - Only the fields that belong to an object's kind are read.
  - The overlap of `value` with `head`/`tail` is not modelled.
  - An object of another kind carries an empty slot buffer.
- Collector.VM.NewArray: takes `size` as a `nat`. A negative `size` in C gives an allocation of unspecified size and a loop that never runs, and that case is not modelled.
- Collector.VM.PushToVM: requires that the pushed object is not yet registered; the C code would register an object twice if a caller pushed one that is.
- Appending after the sweep as written has left `tail` stale is not modelled: pushToVM would then write through a freed node, which has no counterpart in the model, so `PushToVM` and the allocators require `tail` to be the last node. Popping, marking, sweeping and gc as written do run from such a state (`Collector.VM.PopFromVM`, `Collector.VM.PopFrame`, `Collector.VM.MarkAll`, `Collector.VM.SweepAsWritten`, `Collector.VM.GcAsWritten`, `Scenarios.TestGCAsWrittenTwice`), since none of them reads `tail`. Elsewhere the model uses the corrected `Sweep` (see Findings).
- `testMark` (`tests.c:149-168`) is a prefix of `testMarkAndSweep` and is covered by that run's steps, not run on its own. The printing tests `testNewPair`, `testNewPair_Reference`, `testNewArray` and `testVmStackTests` (`tests.c:48-95`) check nothing beyond the allocation contracts and are not replayed.
- The array and cycle tests (`tests.c:202-287`) are not replayed as runs. What they check follows from the general contracts: `Collector.Mark` stops at marked objects, which is what ends a cycle, and `Collector.VM.Gc` keeps exactly the reachable objects.

## Findings

| source | as written | input that shows it | evidently intended | confidence | as-written member | corrected member |
|---|---|---|---|---|---|---|
| gc.c:156-170 | sweep unlinks nodes but never updates `vm->tail` (which, after newVM sets it at gc.c:92, only pushToVM updates, at gc.c:105), so when the last node's object is unmarked, `tail` is left on a node that has been unlinked and freed, contrary to gc.h:52-53 | newVM, newInt(1), newInt(2), popFromVM, markAll, sweep (the run of `testMarkAndSweep`, tests.c:170-200): the second integer's node is the last one and is unlinked, and `tail` still designates it (`Scenarios.StaleTail`, `Scenarios.TestMarkAndSweep`); likewise newVM, newInt three times, popFromVM, gc (the run of `testGC`, tests.c:289-304), where the popped third integer's node is the last one (`Scenarios.GcAsWrittenStale` with `Collector.VM.GcAsWritten`) | sweep leaves `tail` on the last node kept, its final `prev` | high (proved about the model), not executed | Collector.VM.SweepAsWritten | Collector.VM.Sweep |
