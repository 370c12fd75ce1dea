# A verified model of AiVM

AiVM is a deterministic bytecode virtual machine written in C. This project models the parts of it
whose correctness depends on invariants shared by many functions, and proves those invariants and what
they are for, over every input, every run and every interleaving.

- **The moving heap.** `Heap` is the heap as a value: node records over packed attribute and child
  arenas, scratch pairs, and the string and bytes arenas. `MeaningOf` unfolds what a value denotes, to
  any depth. `Liveness` says what the roots reach. `Marking`, `Collector` and `Compaction` are the
  collectors' passes; `Relocation` moves strings; `BytesViews` and `BytesCompaction` keep byte views apart
  and move them; `RootSets` holds the roots and how each collector rewrites them. `Vm` is the object that
  runs them: compaction of each kind, the string allocator with its intern index (`InternIndex`,
  `Allocation`), the bytes allocator and the values pushed (`StackValues`), node creation
  (`NodeCreation`), builders (`Builders`) and the safe point (`SafePoint`). Every method of it keeps
  `Allocation.Good`. `Witnesses` are two runs of it.
- **Workers.** `Scheduler` is the scheduler as an interleaved step system, `SchedulerTable` its critical
  sections over the real slot array, `Runtime` and `RuntimeTable` the invocation table on top of it.
  `TaskTable`, `Batches` and `Workers` are the owner VM's side; `CanonicalOrder` joins both ends.
- **Hash tables.** `StringMap` and `InternIndex`, over shared probing facts in `Probe`.
- **Calls.** `CallMachine` is the machine of stack, frames and locals as functions, `CallStack` the same
  over arrays with growing limits.
- **Codecs.** `Loader` and the catalog nested in it over `Codec`; `Utf8` and `Runes`; `Base64` against `Rfc4648`.

Conventions. A string pointer names the generation of the arena it points into, so a pointer that a
compaction did not relocate reads nothing afterwards. Memory allocation succeeds, except where a host or the
runtime may refuse: there a function says what it answers, the same throughout one call. Integers are unbounded where the code checks for
overflow first; 32-bit and 64-bit fields, wrap-around in the worker identity and the FNV hash are written
out. Numbers are opaque bits.

## What turned out not to hold

Four promises hold only under a condition. In each case the code is modelled as it is, the condition is
proved exact, and a concrete input shows it fail.

- Node creation reserves string space before anything else, and a string compaction there names no extra
  roots. A child that no root reaches then loses its strings. `VmState.Vm.CreateNode` gives the right node
  exactly when the reservation did not compact or every child was reachable;
  `NodeCreation.UnrootedChildLosesStrings` is a child that is lost.
- Finishing a node builder passes the builder's own children array to node creation. A collection there has
  already rewritten that array when the remap reads it, so handles move twice. `VmState.Vm.FinishBuilder`
  gives the new node the builder's children exactly when no collection ran or no dead handle lies below a
  child; otherwise it gets the nodes that bore the children's new numbers before, or no node is made.
  `Witnesses.FinishedWithOtherChild` is a builder over three nodes whose node gets old node 2 for node 3.
- Copying a text that is already stored does not always find it: some functions store a text without
  indexing it, and while the index is complete only indexed texts are looked for. As long as only functions
  that index what they write have written, `Allocation.KnownIffStored` says a copy finds exactly the stored
  texts; after an unindexed store, `StackValues.UnindexedKnownIff` says exactly when it finds that text.
  `Witnesses.StoredTwice` is a run in which splicing finds a text and copying stores it again.
- The rune offset cache is keyed by the address of the text, and string compaction does not clear it.
  `Runes.CacheRightIff` says exactly when an entry filled from one text answers rightly for another at the
  same address; in `Runes.StaleCacheWrong` it does not.

## Model

| member | source | states |
|---|---|---|
| Heap.CarriedMeaning | src/aivm_vm_node_gc.c:181-427 | If one heap carries another's nodes and pairs under a renaming of handles, corresponding values denote the same graph at every depth. |
| Liveness.PackedStartsAreSums | src/aivm_vm_node_create.c:239-291 | In packed arenas each record's attribute and child start is the sum of the earlier counts. |
| Liveness.DistinctFits | src/aivm_vm_node_gc.c:68-88 | Distinct handles between 1 and n number at most n, so the mark queue never fills. |
| Marking.MarkPairs | src/aivm_vm.c:2454-2543 | Pair marking succeeds exactly when there are no pairs at all or no reachable pair handle is out of range, and then marks exactly the reachable pairs. |
| Marking.MarkNodes | src/aivm_vm_node_gc.c:41-179 | Node marking fails only when pair marking does or an extra handle is out of range, and otherwise marks exactly the nodes reachable from stack, locals, task results, parallel values, live pairs, active builders, pins and extra handles. |
| Compaction.RankMapBijection | src/aivm_vm_node_gc.c:235-247 | The handle map is an order-preserving bijection from the live handles onto 1..count. |
| Compaction.RankMapTwice | src/aivm_vm_node_gc.c:429-452 | Mapping a handle a second time is harmless exactly when every handle up to it is live. |
| Compaction.AppendKeepsPacked | src/aivm_vm_node_create.c:239-291 | Committing a record with its attributes and children at the ends keeps the arenas exactly packed. |
| Compaction.CompactedCarries | src/aivm_vm_node_gc.c:181-427 | The compacted heap carries the live part of the old one under the handle map. |
| Compaction.CompactedSound | src/aivm_vm_node_gc.c:181-427 | After node compaction every rewritten root and every live handle is again in range. |
| Compaction.NodeCompactionKeepsMeaning | src/aivm_vm_node_gc.c:181-427 | Every root value and root handle denotes the same kind, id, attributes and ordered children after node compaction, at every depth. |
| Compaction.PairCompactionKeepsMeaning | src/aivm_vm.c:2563-2656 | Every rooted pair unfolds to the same values after pair compaction. |
| Compaction.PairCompactionSound | src/aivm_vm.c:2563-2656 | After pair compaction every live handle is in range. |
| Collector.NumberLive | src/aivm_vm_node_gc.c:235-247 | The handle-map array holds each live handle's rank and 0 for every dead one. |
| Collector.CopyLiveNodes | src/aivm_vm_node_gc.c:249-324 | The live records are copied in order into packed arenas no larger than the old ones, with attributes and renamed children; no child dangles and no slot overflows. |
| Collector.RemapHandles | src/aivm_vm_node_gc.c:429-452 | A child list is remapped exactly when every child has a new handle, entry by entry. |
| Collector.RemapRoots | src/aivm_vm_node_gc.c:337-407 | Rewriting the roots succeeds exactly when every live handle has a new one, and then moves each of them. |
| Collector.MarkAndCopyPairs | src/aivm_vm.c:2563-2620 | Numbering and copying pairs succeeds exactly when marking does, so every later remap succeeds. |
| RootSets.SoundIffMovable | src/aivm_vm_node_gc.c:337-407 | On a marked heap, all remapping passes succeed exactly when every root and every live pair holds handles in range. |
| Relocation.RelocateRef | src/aivm_vm.c:341-403 | One string pointer is relocated to a segment with the same text, stored once; its copy always fits. |
| Relocation.RelocateNodes | src/aivm_vm.c:2716-2743 | Every live record and its attribute slots are relocated and every dead one is left alone. |
| Collector.RelocateAll | src/aivm_vm.c:2658-2760 | String compaction on a ready heap relocates every live string, never fails midway, never grows, leaves every root list with its count and every task its handle, and keeps no text twice and none that nothing live points at. |
| Relocation.StringCompactionKeepsMeaning | src/aivm_vm.c:2658-2760 | Every root reads the same after string compaction, at every depth. |
| RootSets.StringsCompactedSound | src/aivm_vm.c:2658-2760 | After string compaction the heap is well formed again and ready for the next collection. |
| RootSets.CompactedNoDeadText | src/aivm_vm.c:2658-2760 | Every text left after string compaction is one that something live points at. |
| BytesCompaction.RelocateValue | src/aivm_vm_arena.c:185-229 | One view is found in the relocation table or copied; it fails only for want of room, and the table never fills. |
| BytesCompaction.RelocateBytes | src/aivm_vm_arena.c:231-318 | Bytes compaction succeeds exactly when pair marking does and the distinct live views fit the capacity, and changes nothing when marking fails. |
| BytesCompaction.LiveViewsFit | src/aivm_vm_arena.c:137-163 | The live views take no more room than the arena they lie in, because every view is a span of its own. |
| BytesCompaction.DisjointFits | src/aivm_vm_arena.c:185-229 | Views that do not overlap fit into an arena of the same size. |
| BytesCompaction.BytesCompactionKeepsMeaning | src/aivm_vm_arena.c:231-318 | Every root reads the same after bytes compaction, at every depth. |
| BytesCompaction.BytesCompactionSound | src/aivm_vm_arena.c:231-318 | Bytes compaction keeps the heap ready and the views current and apart, and never needs more room than before. |
| BytesViews.SpanFits | src/aivm_vm_arena.c:137-163 | A newly allocated span overlaps no view held before, by roots or by pairs, and reads what was written. |
| BytesViews.FitStays | src/aivm_vm_arena.c:171-183 | Roots and pairs that hold no new view keep all views apart. |
| SafePoint.ViewsFit | src/aivm_vm_arena.c:185-229 | On any sane VM the live views fit the capacity: the failing branch of the copy is unreachable. |
| SafePoint.NodeStep | src/aivm_vm.c:2957-2968 | Node compaction at a safe point keeps the VM sane, byte views included, and what every root denotes. |
| SafePoint.PairStep | src/aivm_vm.c:2969-2973 | Pair compaction at a safe point keeps the VM sane, byte views included, and what every root denotes. |
| Allocation.Reindex | src/aivm_vm.c:2658-2760 | String compaction keeps the VM sane, byte views included, and its rebuilt index covers every segment or is marked incomplete. |
| SafePoint.BytesStep | src/aivm_vm.c:2978-2981 | Bytes compaction at a safe point keeps the VM sane and what every root denotes, and never grows the arena. |
| SafePoint.CompactedOnlyLiveBytes | src/aivm_vm.c:2978-2981 | After bytes compaction the arena is exactly as long as the distinct live views together. |
| VmState.Vm.CompactNodes | src/aivm_vm_node_gc.c:181-427 | Succeeds exactly on sound roots, keeps exactly the live nodes, rewrites every root by the map it returns, and keeps the arenas packed. |
| VmState.Vm.CompactPairs | src/aivm_vm.c:2563-2656 | All or nothing: either every pair and root is renamed by the map of live pairs, or nothing has changed. |
| VmState.Vm.CompactStrings | src/aivm_vm.c:2658-2760 | Never fails on a sane VM; relocates live strings list by list, keeps no dead text, and rebuilds a good index. |
| VmState.Vm.CompactBytes | src/aivm_vm_arena.c:231-318 | Never fails: each live view is copied once, nothing else is kept, every root denotes the same in its own place, and the arena does not grow. |
| VmState.Vm.CollectSafePoint | src/aivm_vm.c:2957-2987 | No part of it can fail; only live nodes, pairs and texts and exactly the bytes of the live views are left, no text twice, and every root denotes the same after the whole sequence. |
| VmState.Vm.PushBytes | src/aivm_vm.c:495-535 | The bytes get a span of their own at the end of the arena and a view that reads them goes on top of the stack; it fails exactly when the stack is full or the limit cannot be raised; nothing moves, every root denotes the same, and views stay apart. |
| VmState.Vm.SliceBytes | src/aivm_vm.c:4036-4079 | The slice, clamped to its operand, is pushed as a copy with a span of its own; it fails exactly as a push of those bytes does. |
| VmState.Vm.EnsureBytesCapacity | src/aivm_vm_arena.c:34-46 | The limit grows by 16384 at a time, no further than it must and never beyond the capacity; it fails only at the capacity or where the host refuses the next step. |
| VmState.Vm.EnsureStringCapacity | src/aivm_vm_arena.c:19-32 | The limit grows by 16384 at a time, no further than it must and never beyond the capacity; it fails only at the capacity or where a tooling host refuses the next step. |
| VmState.Vm.Reserve | src/aivm_vm_arena.c:101-135 | Makes the room it reports; compacts at most once, and outside the tooling profile exactly when the text would not fit the capacity; it fails only when the limit cannot be raised any more. |
| VmState.Vm.AppendText | src/aivm_vm_arena.c:57-99 | The text stands at the old end of the arena, after at most one compaction; with room it neither fails nor compacts, and it fails only when the limit cannot be raised any more. |
| VmState.Vm.CopyText | src/aivm_vm_string_copy.c:301-342 | A known text is returned without touching the arena, any other is appended; the result always reads the text asked for, and a stored text is known as long as every writer indexed. |
| VmState.Vm.CopyString | src/aivm_vm_string_copy.c:183-191 | A pointer into the arena is its own copy; any other reads the same after the copy, a text copied before costs nothing, and outside the tooling profile it fails exactly when the text is not known and does not fit. |
| VmState.Vm.CopyRange | src/aivm_vm_string_copy.c:344-377 | The copy reads the first bytes of the input as they were before the call, even if the input lay in the arena and the arena moved; outside the tooling profile it fails exactly when that text is not known and does not fit. |
| VmState.Vm.CopySplice | src/aivm_vm_string_copy.c:379-447 | The result reads prefix then suffix as they were before the call, even when allocating compacts the arena that holds them; a stored text is taken without telling the index. |
| VmState.Vm.PushStringBytes | src/aivm_vm.c:537-556 | The text is stored at the end of the arena and pushed on top of the stack, and the index does not learn of it; it fails exactly when there is no room for either. |
| Allocation.KnownIffStored | src/aivm_vm_string_copy.c:133-181 | While every writer indexed what it wrote, a copy finds a text exactly when it is stored. |
| StackValues.UnindexedKnownIff | src/aivm_vm.c:537-556 | A text stored without being indexed is found by a copy exactly when it was known before or the index is incomplete. |
| Witnesses.StoredTwice | src/aivm_vm.c:537-556 | From an empty VM: a text stored unindexed, found by splicing, unknown to the index, and stored again by copying. |
| InternIndex.Insert | src/aivm_vm_string_copy.c:23-48 | Inserts on the probe path exactly when a slot is free, keeping every entry reachable. |
| InternIndex.Resize | src/aivm_vm_string_copy.c:50-81 | A larger table with exactly the same entries, of 1024 slots or the least power of two that is enough. |
| InternIndex.Rebuild | src/aivm_vm_string_copy.c:95-131 | After a rebuild the index is sound; it is complete, with an entry for every segment, exactly when nothing is stored or there was memory for the table. |
| InternIndex.Extend | src/aivm_vm_string_copy.c:158-181 | Storing a text and remembering it keeps a complete index covering every segment; it becomes incomplete exactly when it had to grow and there was no memory. |
| InternIndex.MaskWraps | src/aivm_vm_string_copy.c:18-21 | Over a power-of-two capacity the mask leaves slot numbers alone and wraps the one past the table. |
| InternIndex.Lookup | src/aivm_vm_string_copy.c:133-156 | A hit is a segment with exactly the requested text; a miss means no entry stands for it. |
| InternIndex.Find | src/aivm_vm_string_copy.c:183-253 | Index and linear scan together find a text exactly when it is known. |
| InternIndex.Remember | src/aivm_vm_string_copy.c:158-181 | A remembered text will be found again, by the index or, when it gave up, by the scan; the table grows exactly when the load bound says so. |
| NodeCreation.CompactionKeepsChildren | src/aivm_vm_node_create.c:182-205 | After a collection that names the children as roots, the remapped children denote what the old ones did. |
| NodeCreation.CompactedNoGarbage | src/aivm_vm_node_gc.c:181-427 | A compaction leaves only nodes that are reachable again. |
| NodeCreation.ListByList | src/aivm_vm.c:2687-2706 | Where roots are preserved, each value of the stack, the locals, the task results and the parallel values denotes what stood in the same place, and each task keeps its handle. |
| NodeCreation.BuilderByBuilder | src/aivm_vm_node_gc.c:370-382 | The children of each active builder denote what they did, in the same builder and place. |
| NodeCreation.StringCompactionKeepsChildrenIff | src/aivm_vm_node_create.c:179-181 | The string compaction of the reservation keeps the children exactly when each is reachable from the roots. |
| Builders.RemappedTwiceIff | src/aivm_vm_node_builder.c:139-151 | Remapping a builder's own array a second time gives the right children exactly when no dead handle lies below one. |
| Builders.RemapChildren | src/aivm_vm_node_create.c:195-202 | The remap after a collection moves an array of the caller once and a builder's array twice, and fails only where an entry of the latter is no live handle. |
| Builders.RanksSameIff | src/aivm_vm_node_builder.c:139-151 | The nodes a finished builder takes are its own children exactly when no dead handle lies below one. |
| Builders.CollectedTwice | src/aivm_vm_node_create.c:207-227 | A second collection in the same call keeps what the first one made of the children, right or wrong. |
| Witnesses.FinishedWithOtherChild | src/aivm_vm_node_builder.c:139-151 | A run over three nodes, the first dead, with node 3 the child of a builder: the finished node denotes one with old node 2 as its child, and not node 3. |
| NodeCreation.UnrootedChildLosesStrings | src/aivm_vm_node_create.c:179-181 | A child no root reaches no longer reads its kind after the reservation compacts. |
| NodeCreation.AppendedMeaning | src/aivm_vm_node_create.c:239-307 | The committed node denotes its kind, id, attributes and what its children denote; everything else is kept. |
| NodeCreation.AppendedReady | src/aivm_vm_node_create.c:239-307 | After the commit the heap is ready with the new handle as a root. |
| NodeCreation.HeldAsGiven | src/aivm_vm_node_create.c:135-161 | A record over the snapshots of the inputs reads as the inputs did in the arena before the call, NULL as the empty text. |
| NodeCreation.NextCapacity | src/aivm_vm_node_arena.c:5-19 | The current capacity, or 1, doubled as often as it takes to hold what is needed and no oftener. |
| VmState.Vm.TryGrow | src/aivm_vm_node_arena.c:21-83 | Only the tooling profile grows; it succeeds exactly when the host grants every step, and then each array holds what is needed, with less than twice that; a refused step leaves the later arrays alone. |
| VmState.Vm.CompactForChildren | src/aivm_vm_node_create.c:187-205 | One collection inside node creation: roots keep their meaning, no garbage is left, and the children become those `Builders.CollectedFor` says, for the caller's array and for a builder's. |
| VmState.Vm.MakeRoom | src/aivm_vm_node_create.c:182-237 | After up to two collections, one of them only if asked for ahead of need, there is room, or the heap holds exactly the nodes reachable before; the children denote what `Builders.Taken` names, and a collection runs exactly when asked for or when there is no room. |
| VmState.Vm.CopyReserved | src/aivm_vm_node_create.c:240-276 | A copy for which room was reserved neither fails nor moves the arena. |
| VmState.Vm.BuildNode | src/aivm_vm_node_create.c:182-307 | From the reservation on, the new node denotes what was given over `Builders.Taken`; outside the tooling profile it collects exactly when 64 nodes were made since the last collection and space is tight, or when there is none; it fails only when no room can be made or a builder's array cannot be remapped. |
| VmState.Vm.CreateNode | src/aivm_vm_node_create.c:88-307 | The new record has the kind, id and attributes given, as they read before the call and with every text in the arena; the new handle denotes them over the children given exactly when the reservation did not compact or every child was reachable; for a builder's own array the children are right exactly when no collection ran or no dead handle lay below one; roots always keep their meaning in their own places, and every failure has its reason. |
| VmState.Vm.FinishBuilder | src/aivm_vm_node_builder.c:139-151 | Finishing a builder: node creation over its own array, with the exact condition for the right children; on success that builder alone becomes inactive, so that a second finish fails. |
| Scheduler.StepInv | src/aivm_worker_scheduler.c:144-416 | Every step of every thread keeps the invariant. |
| Scheduler.RunInv | src/aivm_worker_scheduler.c:111-416 | Over every run: ids distinct, the count right, running tasks and workers inside `run` one to one, no lost wakeup, each submission started at most once and never after a cancel. |
| Scheduler.WakeStep | src/aivm_worker_scheduler.c:144-416 | No step leaves a sleeper without notice while there is something for it to do. |
| Scheduler.HistoryStep | src/aivm_worker_scheduler.c:144-416 | Each submission starts at most once and a canceled one never. |
| Scheduler.StatusForward | src/aivm_worker_scheduler.c:306-416 | A status moves only from queued to running to completed, or from queued to canceled, and a task leaves the table only when terminal. |
| Scheduler.FinishesOwn | src/aivm_worker_scheduler.c:171-176 | A finishing worker that looks its id up finds its own slot, still running. |
| Scheduler.NeverLost | src/aivm_worker_scheduler.c:172-174 | The branch in which it does not is never taken. |
| Scheduler.RunningBound | src/aivm_worker_scheduler.c:260-284 | At most as many tasks run as there are workers. |
| Scheduler.QueuedProceeds | src/aivm_worker_scheduler.c:144-166 | With a task queued and no stop, every worker is inside `run` or can pick a task now. |
| Scheduler.AwaiterNotStranded | src/aivm_worker_scheduler.c:344-368 | An awaiter whose task is done was notified and can answer with its status. |
| Scheduler.StartsInOrder | src/aivm_worker_scheduler.c:125-139 | If ids are submitted in increasing order, tasks start in increasing order, under every interleaving. |
| SchedulerTable.Table.FindTask | src/aivm_worker_scheduler.c:111-123 | Finds a task exactly when the id is in the table. |
| SchedulerTable.Table.FindQueued | src/aivm_worker_scheduler.c:125-139 | Finds the queued task with the least id exactly when one is queued. |
| SchedulerTable.Table.Submit | src/aivm_worker_scheduler.c:306-342 | Refused exactly when the table is full or the id taken; otherwise the first free slot holds the task queued, and no other slot changes. |
| SchedulerTable.Table.Look | src/aivm_worker_scheduler.c:153-167 | One look by a worker is the pick, sleep or leave step, in the code's order of tests; a pick sets the queued task with the least id running and changes no other slot. |
| SchedulerTable.Table.FinishRun | src/aivm_worker_scheduler.c:171-177 | The end of the loop completes the worker's own slot and no other. |
| SchedulerTable.Table.Check | src/aivm_worker_scheduler.c:344-368 | One check by an awaiter answers exactly when the task is completed or canceled, with that status; otherwise it sleeps or is rejected. |
| SchedulerTable.Table.Cancel | src/aivm_worker_scheduler.c:370-392 | Cancels exactly the task with the id, exactly when it is queued. |
| SchedulerTable.Table.Release | src/aivm_worker_scheduler.c:394-416 | Frees exactly the slot of the task with the id, exactly when it is terminal. |
| Runtime.RRunInv | src/aivm_worker_runtime.c:146-276 | Over every run of owner and workers the two tables stay coupled. |
| Runtime.CoupledStep | src/aivm_worker_runtime.c:146-276 | Placing, submitting, rolling back, releasing and freeing keep the coupling, with workers running in between. |
| Runtime.RunOwnsEntry | src/aivm_worker_runtime.c:146-203 | A worker inside `run` has an invocation of its own that the owner is not handling. |
| Runtime.NeverFreedInRun | src/aivm_worker_runtime.c:259-276 | No invocation is freed, rolled back or reused while its `run` executes. |
| Runtime.NeverRefused | src/aivm_worker_runtime.c:192-200 | A placed invocation is never refused by the scheduler, so the rollback is never needed. |
| Runtime.AwaitReturnsOwn | src/aivm_worker_runtime.c:205-243 | Await returns the outcome of the payload submitted under its own id. |
| RuntimeTable.Invocations.Find | src/aivm_worker_runtime.c:29-41 | Finds an invocation exactly when the id is in the table. |
| RuntimeTable.Invocations.Place | src/aivm_worker_runtime.c:146-192 | Takes the first free entry, and changes no other, exactly when the payload is within its limit, the id is new, the program could be prepared, an entry is free and the payload could be copied. |
| RuntimeTable.Invocations.Free | src/aivm_worker_runtime.c:259-276 | Frees that entry and no other, and no worker is running it. |
| RuntimeTable.Invocations.Answer | src/aivm_worker_runtime.c:205-243 | The answer is the outcome of the payload given for that id. |
| TaskTable.IsPinned | src/aivm_vm.c:1580-1609 | A handle is pinned exactly when a value or another task's result holds it. |
| TaskTable.Reclaim | src/aivm_vm.c:1638-1684 | Drops the oldest finished unpinned slot and keeps the order of the rest; fails only when there is none. |
| TaskTable.Remove | src/aivm_vm.c:1686-1717 | Drops the slot with the handle and nothing else. |
| TaskTable.WithoutKeepsOrder | src/aivm_vm.c:1686-1717 | Removing a slot keeps the others in handle order and drops exactly its handle. |
| TaskTable.Owner.Issue | src/aivm_vm.c:1781-1818 | Succeeds exactly when a handle is left and the table has room or a slot can be reclaimed; the handle is one above the last, its slot is at the end, and a full table has lost its oldest finished unpinned slot and no other. |
| TaskTable.Owner.Await | src/aivm_vm.c:2426-2452 | Delivers the result of the slot with that handle and drops that slot alone, exactly when it is finished with a payload its state allows and there is room for the tombstone it may need; the tombstone is written exactly when the handle is still held; a handle delivered before fails. |
| TaskTable.DeliveredAtMostOnce | src/aivm_vm.c:1580-1818 | Over any run no result is delivered twice and every handle issued is larger than the ones before. |
| TaskTable.OwnerDeliversOnce | src/aivm_vm.c:1580-1818 | The same of any owner object: its methods record the steps they take, so its whole life is such a run. |
| Batches.ValidateBatch | src/aivm_vm_worker_batches.c:98-134 | Accepts exactly the framings of at least one payload, and counts them. |
| Batches.SliceBatch | src/aivm_vm_worker_batches.c:210-219 | Each recorded offset and length is the payload in that place of the framing. |
| Batches.SubmitsFramedPayload | src/aivm_vm_worker_batches.c:43-73 | Every task made from a group was submitted with the payload its batch frames in that place. |
| Batches.MarkKeepsWindow | src/aivm_vm_worker_batches.c:43-95 | Making the next payload a task keeps handles nonzero exactly below the mark, rising across groups, and each submitted with its own payload. |
| Batches.SubmittedOnce | src/aivm_vm_worker_batches.c:43-95 | No payload of any group is submitted twice. |
| WorkerTasks.Workers.Materialize | src/aivm_vm_worker_batches.c:43-73 | Submits the next payload under a fresh handle, in a slot at the end of the table, and moves the mark; or leaves the window as it was, and then no handle is left or the runtime refused the last one. |
| WorkerTasks.Workers.Refill | src/aivm_vm_worker_batches.c:75-95 | Keeps every group, its batch, slices and task handles, and never moves a mark back; stops with slots free only when every payload of every group has its task, or fails where no handle is left or the runtime refuses. |
| WorkerTasks.Workers.SubmitOne | src/aivm_vm_worker_tasks.c:81-121 | One submission under a fresh handle, above all earlier ones, exactly when a slot can be issued and the runtime takes it; a full table loses its oldest finished unpinned slot and no other. |
| WorkerTasks.Workers.SubmitAll | src/aivm_vm_worker_batches.c:136-228 | A batch is accepted exactly when it frames at least one payload within the bounds on logical tasks, input bytes and groups; it then becomes a group of exactly its framed payloads behind the others, which keep their handles, batches, slices and tasks; otherwise nothing changes. |
| WorkerTasks.Workers.Await | src/aivm_vm.c:1718-1738 | A delivery, under the exact condition of the task table, is followed by a refill of the window that keeps every group and every other slot; without one the groups stay as they are; a delivered handle is never delivered again. |
| CanonicalOrder.TasksStartInOrder | src/aivm_vm_worker_batches.c:75-95 | For any valid owner, in any run of the scheduler that was given its submissions or the first of them, started ids strictly increase. |
| StringMap.SlotFor | src/aivm_vm_map.c:54-61 | Every probe ends, at the key's slot or at a free one. |
| Probe.HashBytes | src/aivm_vm_map.c:6-15 | The hash loop computes 64-bit FNV-1a with its two constants. |
| StringMap.Rehash | src/aivm_vm_map.c:63-89 | A larger table that stands for the same map. |
| StringMap.MapRecord.Put | src/aivm_vm_map.c:120-151 | The table stands for the map with the key set to the value, and doubles exactly when the load bound says so; a frozen or full map refuses and changes nothing. |
| StringMap.MapRecord.Finish | src/aivm_vm_map.c:153-162 | Freezes once; after it nothing changes. |
| StringMap.MapRecord.DistinctKeys | src/aivm_vm_map.c:164-170 | The number of distinct keys put. |
| StringMap.MapRecord.Get | src/aivm_vm_map.c:172-194 | The value of the last put of the key, or the fallback. |
| StringMap.LastPutWins | src/aivm_vm_map.c:120-151 | After any puts a key maps to its last value, and to nothing if it was never put. |
| CallMachine.RunDisciplined | src/aivm_vm_stack.c:15-161 | For every program and run: bases never decrease up the frames, locals bases are at most the count, counts fit their capacities. |
| CallMachine.StoreLaw | src/aivm_vm_stack.c:131-161 | A store puts the value at the frame's base plus the index, leaves every other cell alone and raises the count over it, exactly when that place exists. |
| CallMachine.StoreThenLoad | src/aivm_vm_stack.c:131-195 | STORE_LOCAL and then LOAD_LOCAL of the same local put the stored value back on top of the same stack. |
| CallMachine.PushLaw | src/aivm_vm_stack.c:48-64 | A push fails exactly at 20000 values and otherwise changes the stack alone, by the value on top. |
| CallMachine.CallLaw | src/aivm_vm.c:3376-3453 | When CALL succeeds, exactly, and what it leaves: arguments on top, and either one frame more that returns behind the call or the caller's frame reused. |
| CallMachine.ArgumentRun | src/aivm_vm.c:2999-3017 | The arguments of a target are the whole run of STORE_LOCAL there. |
| CallMachine.LayoutLaw | src/aivm_vm.c:3019-3089 | A layout is good exactly with at most 64 arguments into distinct locals, none negative. |
| CallMachine.RetRestores | src/aivm_vm.c:3455-3517 | RET succeeds exactly with zero or one value above the base and a return address in range; it leaves the stack as it stands, the locals at the saved base and one frame fewer. |
| CallMachine.SimStep | src/aivm_vm.c:3376-3453 | A reused frame and a pushed frame take the same step and stay in simulation. |
| CallMachine.SimReturn | src/aivm_vm.c:3455-3517 | Where the reused frame returns once, the other returns twice, to the same state. |
| CallMachine.TailCallRefinesCall | src/aivm_vm.c:3376-3517 | The tail call and the call with a later RET visit the same callee instructions with the same stack and end with equal stack, frames, live locals, world and instruction pointer. |
| CallMachine.ExtraValuesDiffer | src/aivm_vm.c:3425-3446 | With other values under the arguments, the caller's RET fails or leaves a stack of another height than the tail call's. |
| CallStack.GrowLimit | src/aivm_vm_stack.c:3-46 | The limit grows by whole steps only as far as needed and reaches whatever the capacity holds. |
| CallStack.InferArgCount | src/aivm_vm.c:2999-3017 | The length of the run of STORE_LOCAL at the target. |
| CallStack.ValidateLayout | src/aivm_vm.c:3019-3089 | Accepts exactly at most 64 arguments into distinct locals. |
| CallStack.MoveDown | src/aivm_vm.c:3435-3440 | Cells slide down in place even when the ranges overlap. |
| CallStack.Stacks.Push | src/aivm_vm_stack.c:48-64 | The value goes on top of the cells there were; fails exactly at 20000; the limit grows by 512 when it must. |
| CallStack.Stacks.Pop | src/aivm_vm_stack.c:66-80 | Takes the top value; fails exactly on an empty stack. |
| CallStack.Stacks.PushFrame | src/aivm_vm_stack.c:82-107 | Records return address, base and the locals count above the frames there were, exactly when the top frame is in range and one of 2048 frames is free. |
| CallStack.Stacks.SetLocal | src/aivm_vm_stack.c:131-161 | The cell at the frame's base plus the index holds the value, every other cell what it held, and the count is the larger of the old one and one past that cell; fails exactly out of range. |
| CallStack.Stacks.GetLocal | src/aivm_vm_stack.c:163-195 | Reads the cell at the frame's base plus the index, exactly below the count. |
| CallStack.Stacks.DoCall | src/aivm_vm.c:3376-3453 | The arrays do exactly the machine's CALL, tail call included. |
| CallStack.Stacks.Return | src/aivm_vm.c:3455-3517 | The arrays do exactly the machine's RET. |
| Loader.LoadComplete | src/aivm_program.c:188-481 | Loading the encoding of a well-formed artifact gives that artifact. |
| Loader.HeaderByValue | src/aivm_program.c:206-236 | What loads begins with the bytes of "AIBC" and 2, 0, 0, 0, its flags and section count are the little-endian fields behind them, and it has at most 32 sections. |
| Loader.LoadSound | src/aivm_program.c:188-481 | Whatever loads is the encoding of the well-formed artifact returned. |
| Loader.LoadsExactlyEncodings | src/aivm_program.c:188-481 | Accepted inputs are exactly encodings: sections adjacent and in bounds, opcodes known, constants and catalog filling their sections. |
| Loader.EncodingsDiffer | src/aivm_program.c:188-481 | No two artifacts share an encoding. |
| Loader.WorkersSound | src/aivm_worker_catalog.c:117-202 | Accepted catalog entries have ABI 1, no reserved capability, the right identity, and an artifact that loads and contains the entry point. |
| Loader.WorkersComplete | src/aivm_worker_catalog.c:117-202 | Every encoded catalog is read back. |
| Loader.EntryInside | src/aivm_worker_catalog.c:189-193 | An accepted entry point is an instruction of the first instruction section of the worker's program. |
| Loader.NestedShorter | src/aivm_worker_catalog.c:175-190 | A worker's artifact is strictly shorter than what holds it, so loader and catalog recursion ends. |
| Loader.LoadSections | src/aivm_program.c:239-476 | The section loop reads what the encoding says, one section at a time. |
| Loader.LoadConstants | src/aivm_program.c:319-457 | Accepts exactly constants that parse, fill the section and fit the storage, and stores each where its value points. |
| Loader.StringReads | src/aivm_program.c:69-96 | A string constant reads back as written exactly when it has no NUL. |
| Loader.MixAll | src/aivm_worker_catalog.c:18-59 | The lane loop computes the identity's lanes over the header fields and the artifact. |
| Loader.IdentityByValue | src/aivm_worker_catalog.c:18-59 | The identity is eight little-endian lanes; each starts from its own constant and takes the four header fields, little-endian in their order, and then the artifact. |
| Codec.ListComplete | src/aivm_program.c:300-316 | A list of encoded items reads back, whatever follows it. |
| Codec.I64Reads | src/aivm_program.c:39-45 | A 64-bit field reads back as the two's complement integer written. |
| Utf8.IsValid | src/aivm_vm_text.c:155-233 | Accepts exactly concatenations of encodings of nonzero Unicode scalars. |
| Utf8.EncodingUnique | src/aivm_vm_text.c:155-233 | A text encodes at most one sequence of scalars. |
| Utf8.OffsetOfScalars | src/aivm_vm.c:721-748 | On accepted text the offset of a rune is the length of the encoding of the scalars before it. |
| Utf8.StepByBits | src/aivm_vm.c:721-748 | A rune step on any text, by leading bits: 110, 1110 and 11110 take along one, two and three bytes that begin with 10, and every other byte is a rune. |
| Utf8.RuneCount | src/aivm_vm.c:750-766 | The number of rune steps to the end of any text. |
| Utf8.CountIsScalars | src/aivm_vm.c:750-766 | On accepted text that is the number of scalars. |
| Utf8.ScalarLength | src/aivm_vm.c:4728-4767 | Counts the bytes that continue no sequence. |
| Utf8.ScalarLengthIsScalars | src/aivm_vm.c:4728-4767 | On accepted text the scalar length is the number of scalars. |
| Runes.Cache.ByteOffset | src/aivm_vm.c:768-794 | What the cache answers, whatever it holds; the uncached offset, on any text, while its entry is right for the text. |
| Runes.Cache.Substring | src/aivm_vm.c:807-841 | On accepted text, the slice of the scalars. |
| Runes.Cache.Remove | src/aivm_vm.c:843-893 | On accepted text, the scalars with the range deleted. |
| Runes.Cache.Find | src/aivm_vm.c:895-932 | On accepted text, the first match among the scalars, or -1. |
| Runes.CacheRightIff | src/aivm_vm.c:768-794 | An entry filled from one text answers every rune of another at the same address rightly exactly when the cached rune starts at the same byte in both. |
| Runes.StaleCacheWrong | src/aivm_vm.c:768-794 | A cache filled from a two-byte rune and asked for rune 1 of "ab" at the same address returns 2, where rune 1 starts at byte 1. |
| Base64.RoundTrip | src/aivm_vm_text.c:24-153 | Decoding what was encoded is the identity, for all bytes. |
| Base64.BackIff | src/aivm_vm_text.c:24-112 | Encoding what was decoded gives the text back exactly when its unused bits are zero. |
| Base64.EncodedLength | src/aivm_vm_text.c:114-153 | Four letters for every three bytes begun. |
| Base64.EncodedByValue | src/aivm_vm_text.c:114-153 | Each byte of the encoding is the letter at the place in the literal alphabet that the matching six bits of the input name, or '=' behind the last bit. |
| Base64.PaddingByValue | src/aivm_vm_text.c:147-148 | One byte over leaves "==" at the end, two leave "=", and '=' stands nowhere else. |
| Base64.DecodedByValue | src/aivm_vm_text.c:45-103 | Each decoded byte is the matching eight bits of the letters' places in the alphabet, padded as the text shows. |
| Base64.PaddedDecodes | src/aivm_vm_text.c:45-103 | Every text of letters, padded as RFC 4648 says, is accepted. |
| Rfc4648.PlaceByValue | src/aivm_vm_text.c:3-22 | Where each byte stands in the alphabet: capitals, small letters, digits, plus, slash, and nothing else. |
| Base64.FromBase64 | src/aivm_vm_text.c:24-112 | Accepts exactly letters of the alphabet in groups of four with at most two '=' at the end; the bytes are the bits of the letters' places; both passes agree on the length, and writing fails only for a short buffer. |
| Base64.ToBase64 | src/aivm_vm_text.c:114-153 | Writes the text of RFC 4648, section 4, exactly when the buffer holds it and its NUL. |

## Left out

- Heap effects of whole opcodes that hold handles in C locals across several creations (MAKE_NODE, MAKE_MAP, PAR_JOIN, the worker boundary copy): node creation itself is proved.
- Kind, id and attributes of node builders: they are passed to `VmState.Vm.FinishBuilder`, as the copies outside the arena they are.
- The forward child references that initializing the argv node makes for a moment: the heap is taken as well formed after it.
- Collections inside RET: `CallMachine` treats values as opaque and leaves the safe point to `SafePoint`.
- Marking, compaction and the intern index work on sequences that stand for the C arrays rather than in place on shared memory, so aliasing is modelled only where it matters, for a builder's children.
- Runtime.NeverRefused: assumes what the code provides, that the runtime's table and the scheduler's have the same size.
- Loader.LoadsExactlyEncodings: error codes and error offsets are not modelled, only acceptance and what is loaded; the catalog's entry loop is a recursion over the bytes left.
- Runes.Cache.Remove: start plus length must not overflow 64 bits, where the code's addition is undefined.
- VmState.Vm.CreateNode: a child's kind is assumed to be an arena string of the current generation, which its contract says of every node it makes.
- WorkerTasks.Workers.SubmitAll: operand type checks are not modelled, and whether the catalog has the worker and its runtime could be made is a parameter.
- Runes.Cache.ByteOffset: an entry that points past the end of the text stops there, where the code would read on in the arena.
- CallMachine.ExtraValuesDiffer: speaks of the caller's RET, not of the callee's run before it.
- Syscalls, capability policy and remote transport: their results are arbitrary values.
- Floating-point opcodes: numbers are opaque bits.
- Error texts, counters, history rings and profiling.
- Thread creation, platform variants, host memory probing and processor counting: a fixed number of workers and free refusals.
- The command line, UI hosts, package manager, blob table, module cache and debugger.
