# GCA, modelled and verified in Dafny

GCA is a small garbage-collecting allocator for C++. This project models its collector
(`gc.cpp`) and the two headers it is built on, and proves what they promise and, where the code
does less, exactly when it keeps the promise.

## How the model is built

The objects are modelled twice. `Handles` and `GcImpl` hold the classes of the program (`Handle`
is `internal_handle`, `Page` is `page`, `Gc` is `gc_impl`); their methods update fields, lists, the
lookup map and the bytes of pages in place, with the loops and branches of the code. Each of these
methods is proved equal to a function on values, and the theorems are about those functions:

| module | what it is about |
|---|---|
| `References` | the backward search for a root over arbitrary, also cyclic, graphs |
| `Objects` | `SetField`, destruction and registration on the heap of objects |
| `Collection` | passes over the objects of a page |
| `LargeObjects` | the two passes over the list of large objects |
| `Waiting` | which of these passes never return |
| `Runs` | whole runs of clients and collector |
| `Layout` | first fit with alignment, recording and removing blocks of one page |
| `Compaction` | sliding compaction of one page |
| `Requests` | what a small request finds on the pages, and where it is served |
| `AddressIndex` | the agreement of pages, large objects, lookup and handles |
| `RwLock` | the reader-writer lock, one load or compare-and-swap per step, any number of threads |
| `AtomicFlags` | the atomic bit set, likewise |
| `Handles`, `GcImpl` | the classes, computing all of this in place |
| `Vectors`, `Wrappers` | small shared types |

An object is *reachable* (`Live`) if following `referencedBy` lists backwards leads to an object
with a root handle; `Runs.ForwardAndBackward` shows that this is the same as being found from the
roots through fields. A flag is *sound* if the flagged object is unreachable. Destroyed handles
stay in the model as tombstones, because other garbage may still point at them, and because
`ptr_safe_container::Remove` (include/gca/gc-util.h:631) tests its condition the wrong way round
and leaves the slot taken.

The collector is sequential here. The environment answers every attempt to take a lock:
`locks(t)` is the outcome of the `t`-th attempt, so a theorem for all `locks` holds for every
combination of refusals, and `forall t :: locks(t)` says that all locks are free. Memory that
allocators hand out is a parameter, required to be unused by pages and large objects.

## What the code does not keep

* **Locks that are never free.** A destruction waits for the lock of everything that its object
  still holds (gc.cpp:571-585). The write lock taken to destroy an object is never released
  (gc.cpp:467-468, gc.cpp:197-205, gc.cpp:139-146), and no lock is re-entrant, so the thread that
  calls the collector waits forever for what it has pinned itself. So destroying an initialized object
  that holds itself, a destroyed object, or an object in `held` never returns (`Objects.Waits`), where
  `held` are the objects of which the calling thread has the lock. The functions of `Collection` and
  `LargeObjects` are the passes of a repaired collector that does not wait; the collector as written
  goes through the same states until it waits forever. `Waiting` says when it does: with all locks free
  and no live cycle, if and only if some unreachable object of the page holds itself, a destroyed
  object, one in `held`, or an unreachable object before it (`PassNeverReturnsIff`, and likewise
  `SlowNeverReturnsIff` and `FastNeverReturnsIff`). Cyclic garbage on one page is therefore never
  reclaimed (`CyclesAreNotReclaimed`, `CycleExample`), acyclic garbage depends on the order on the page
  (`ChainExample`), and a client that pins what its garbage holds and collects is stuck
  (`PinnedExample`). The methods of `GcImpl` return `Stuck` or `NoLockEver` then.
* **Failed initialization.** Relocation leaves the bytes of an object behind if its initialization
  failed (gc.cpp:322), but its fields are still read when it is destroyed (gc.cpp:539). So a move
  replaces them by whatever lies at the new place, and reference counts stay right for certain if and
  only if the object has no fields (`Objects.NeverUnbalancedIff`; `Objects.HalfMadeExample` and
  `Compaction.MoveExample` are an input). The same is true of fields that were set before the
  initialization. `GcImpl.Gc.DefragmentOnPage` changes the fields of just the objects that it moves
  although they are `Fragile` in this sense, and keeps everything else; `Collect` and `Allocate` promise
  nothing once that has happened (`Corrupted`), which it cannot if no object is fragile
  (`Collection.Sturdy`).
* **Live cycles.** A nested search that fails only because it met an object that is already on
  the search's stack still flags its object (gc.cpp:666-669), so a reachable object can be
  flagged and later destroyed. `References.LiveCycleCounterexample` is such a graph,
  `Runs.LiveCycleIsLost` a run of clients that leads to it, and `Waiting.LostExample` shows that
  two passes that do return destroy the object. `References.SearchesSoundIffNoLiveCycle` and
  `Collection.PassesSafeIffNoLiveCycle` show that searches and passes are safe, for every order of
  the lists and every outcome of the locks, exactly if no reachable objects without root handles
  form a cycle; a pass is safe if it destroys unreachable objects only and leaves no reachable one
  flagged for the next pass. A negative answer is sound on every graph.
* **Collector ids** are never given back (gc.cpp:157, gc.cpp:417): after eight passes over pages
  or large objects the next one waits forever. The methods return `NoIdLeft` then.
* **Gaps.** When `TryAllocate` places an object in a gap before another block
  (gc.cpp:776-780) it records a block behind that next block instead of the one it returns. The
  model has both forms: `RecordAsWritten` and the repaired `Record`.
  `Layout.RecordedRightIffNoGapFits`, `Layout.RemoveRestores` and
  `AddressIndex.AsWrittenAgreesIffNoGapFits` show that the code as written is right exactly if
  no gap of the page has room for the request and its padding; `Layout.GapCounterexample` is an
  input where one has. Otherwise the same request is promised the same memory once more, where an
  object is registered already (`Layout.GapIsPromisedTwice`, `AddressIndex.GapIsTakenTwice`).
  `GcImpl` allocates with the repaired form.
* **Empty arrays.** The documentation says that a count of 0 returns a null pointer
  (include/gca/gc-internal.h:367). For a request of 0 bytes every page has a place
  (`Layout.EmptyRequestFits`), so a block of size 0 is recorded, but the span that is returned counts
  as empty (gc.cpp:91, gc.cpp:99, gc.cpp:107, gc.cpp:811) and no object is registered for it: the
  agreement of blocks and lookup is lost (`AddressIndex.EmptyRequestDisagrees`,
  `AddressIndex.EmptyRequestLeavesBlock`), which the assertion at
  gc.cpp:708 meets in the collection that follows on the same page, unless some object starts at the
  same address. On a new page the end of `TryAllocateOnNewPage` is reached, which must not be
  (gc.cpp:827); an aligned page leads there if and only if the request is empty. In the model
  `Allocate` returns `Derailed` then.
* **Owner scan.** The scan for the owner of an address has an inclusive upper bound
  (gc.cpp:1262, gc.cpp:1277), so at the start of an object that follows another one it accepts both
  (`AddressIndex.ScanCounterexample`). `AddressIndex.ScanIsCertainIff` says when it is certain to find
  the right object on its own, and `GcImpl.Gc.GetOwningObject` does then; behind an exact lookup it
  always is (`GcImpl.Gc.LookupObjectOrGetOwningObject`).

## Model

| member | source | states |
|---|---|---|
| References.SearchIsExact | gc.cpp:632-688 | on any finite graph with no mark bit set, the search finds a root if there is a chain of references to one through objects not flagged at entry; if none of the locks it tried was refused, only if |
| References.SearchGrows | gc.cpp:666-669 | the search only adds flags, only to existing objects that are not roots, and only moves time forward |
| References.SearchSettles | gc.cpp:650-675 | after a negative answer everything flagged meanwhile has all its references among flagged and marked objects, which is why no root is missed although flags change during the search |
| References.NegativeAnswerIsSound | gc.cpp:650-675 | if all flags are sound and the search answers no, the object and everything flagged during the search is unreachable, on arbitrary cyclic graphs |
| References.SearchKeepsFlagsSound | gc.cpp:632-688 | with no live cycle every search, nested or not and whatever its answer, keeps all flags sound |
| References.KnotMeansCycle | gc.cpp:679-685 | the condition used in the proofs is the absence of a cycle of reachable objects without root handles |
| References.SearchesSoundIffNoLiveCycle | gc.cpp:666-669 | searches leave flags sound, for every order of the lists and every outcome of locks, if and only if there is no live cycle |
| References.LiveCycleCounterexample | gc.cpp:666-669 | two objects referencing each other and a root: the search answers yes and leaves both reachable objects flagged |
| Objects.OldValueIsAware | gc.cpp:372-376 | the assertion of `SetField` that the old value knows its owner never fails |
| Objects.SetFieldEffect | gc.cpp:336-409 | `SetField` throws exactly for a new non-null value with a garbage owner or value; otherwise just that field changes, every object occurs in each `referencedBy` list as often as its fields hold the list's owner, and the old value is flagged exactly if nothing leads to it any more |
| Objects.SetFieldKeepsGarbage | gc.cpp:391-395 | storing a reachable value or null keeps all flags sound and makes no unreachable object reachable |
| Objects.NullFieldsFlags | gc.cpp:545-594 | clearing all fields flags exactly those former targets that no field and no root handle leads to afterwards |
| Objects.DestroyEffect | gc.cpp:511-630 | destroying an initialized object nulls all its fields, takes it out of every `referencedBy` list, leaves the other fields and counts alone, and flags it and exactly the targets that nothing leads to any more |
| Objects.BalancedIffSameCounts | gc.cpp:319-330 | if other bytes lie where an object was moved without its own, counts stay right if and only if each object occurs there as often |
| Objects.NeverUnbalancedIff | gc.cpp:319-330 | whatever those bytes are, counts stay right for certain if and only if the object has no fields |
| Objects.HalfMadeExample | gc.cpp:319-330 | an array of which the initialization failed after an element came to hold another object: moved to zeroed memory it is still listed there, although it holds nothing |
| Objects.RegisterKeepsGood | gc.cpp:714-758 | a new object keeps counts and flags right, changes nothing about what is reachable and closes no cycle |
| Collection.GarbageEdgesDoNotMatter | gc.cpp:543-588 | dropping the references that start at an unreachable object changes nothing about what is reachable |
| Collection.SearchingIsSafe | gc.cpp:452 | the search of an inspection flags nothing reachable if it answers no or no live cycle exists, and answers yes only for reachable objects if no lock is refused |
| Collection.InspectIsExact | gc.cpp:427-481 | one turn of the collection loop destroys only unreachable objects, all of them if no lock is refused, and keeps flags, counts and reachability |
| Collection.InspectHeedsLocks | gc.cpp:427-481 | on every heap an inspection destroys only an object without root handles of which both locks were had; if one of them is refused nothing changes but the attempts counted, and if both are had a flagged object is destroyed |
| Collection.RefusedObjectSurvives | gc.cpp:438-450 | on every heap, an object of which a lock is refused when its turn comes survives the pass, flagged or not |
| Collection.RefusedPassChangesNothing | gc.cpp:411-486 | if every lock is refused a pass over a page leaves heap and list as they were |
| Collection.CollectListIsSafe | gc.cpp:411-486 | with no live cycle a pass destroys only unreachable objects of the page, whichever locks are refused, and leaves every flag sound |
| Collection.CollectListIsComplete | gc.cpp:411-486 | if no lock is refused, what survives a pass that returns (or one of the repaired collector) is exactly the reachable objects of the page, in order, cyclic garbage or not; `Waiting.PassNeverReturnsIff` says when the pass as written returns |
| Collection.CollectListAccounts | gc.cpp:427-481 | on every heap each object of the page survives or is destroyed, and no flag is ever lost |
| Collection.PassContinues | gc.cpp:427-477 | the loop with its index kept in place after a removal visits every object exactly as a pass over the list does |
| Collection.KnotLosesObject | gc.cpp:452-476 | whenever there is a live cycle, some order of the lists lets a pass over one reachable object leave a reachable object flagged, and a second pass over that one destroy it |
| Collection.PassesSafeIffNoLiveCycle | gc.cpp:411-486 | passes destroy unreachable objects only and leave no reachable one flagged, for every list of different objects, every order of the `referencedBy` lists and every outcome of locks, if and only if there is no live cycle |
| LargeObjects.SweepFastIsSafe | gc.cpp:130-151 | the fast pass destroys every large object flagged when it starts and nothing reachable, whatever cycles there are, and keeps flags and counts |
| LargeObjects.SweepSlowIsSafe | gc.cpp:153-226 | with no live cycle the slow pass destroys only unreachable large objects, whichever locks are refused |
| LargeObjects.SweepSlowIsComplete | gc.cpp:166-221 | if no lock is refused, after a slow pass that returns (or one of the repaired collector) just the reachable large objects are on the list despite the swaps, and the others are destroyed; `Waiting.SlowNeverReturnsIff` says when the pass as written returns |
| LargeObjects.RefusedLargeObjectStays | gc.cpp:166-195 | on every heap, a large object of which a lock is refused when its turn comes keeps its place on the list |
| LargeObjects.RefusedSweepChangesNothing | gc.cpp:166-221 | if every lock is refused the slow pass leaves heap and list as they were |
| Waiting.PassNeverReturnsIff | gc.cpp:411-486 | with all locks free and no live cycle, the pass over a page never returns if and only if, among the unreachable objects of the page in their order, some initialized one holds itself, an object destroyed before, one of which the calling thread has the lock, or an earlier one |
| Waiting.PassWaitsIff | gc.cpp:411-486 | on every heap, whichever locks are refused, the pass over a page never returns if and only if one of the objects that the repaired pass destroys is initialized and holds itself, something destroyed before it, or what the calling thread has pinned |
| Waiting.CyclesAreNotReclaimed | gc.cpp:545-594 | under the same conditions no pass over a page on which a cycle of initialized garbage lies ever returns, in whatever order |
| Waiting.CycleExample | gc.cpp:567-585 | garbage `a` and `b` that hold each other: the pass never returns, whichever comes first |
| Waiting.ChainExample | gc.cpp:567-585 | garbage `a` that holds garbage `b`: the pass returns if `a` lies first on the page and never if `b` does |
| Waiting.PinnedExample | gc.cpp:567-585 | after a run in which a client drops an object, and keeps a pin on another one that the first one holds: a pass by the thread of that client never returns, although there is no live cycle and no garbage holding garbage, and one by another thread does |
| Waiting.SlowNeverReturnsIff | gc.cpp:153-226 | the same condition as for pages for the slow pass over large objects, in the order in which its swaps lead to them |
| Waiting.FastNeverReturnsIff | gc.cpp:130-151 | on every heap the fast pass never returns if and only if, among the objects flagged at its start and those that nothing but objects destroyed before held, in the order of its swaps, an initialized one holds itself, something destroyed before it, or what the calling thread has pinned |
| Waiting.FastVictimsAre | gc.cpp:130-151 | what the fast pass destroys, and in which order, follows from the heap and the list at its start |
| Waiting.DetachedPassReturns | gc.cpp:411-486 | with no live cycle and no initialized garbage that holds garbage or what the calling thread has pinned, every pass over a page returns, whichever locks are refused |
| Waiting.DetachedFastReturns | gc.cpp:130-151 | likewise the fast pass over large objects, even with live cycles |
| Waiting.SweepingStep | gc.cpp:1066-1082 | page after page, with all locks free and no live cycle: the pass over the next page never returns if and only if the garbage of the pages so far has an object that holds itself, a destroyed one, one that the calling thread has pinned, or an earlier one; otherwise just the reachable objects of that page stay |
| Waiting.LostExample | gc.cpp:666-669 | with a root that holds one of two objects holding each other, a pass over one flags the other and a pass over that destroys it, and both return |
| Runs.LiveCycleReached | gc.cpp:1095-1222 | there is a run of allocating, initializing, storing and dropping handles after which two reachable objects without root handles hold each other |
| Runs.LiveCycleIsLost | gc.cpp:427-481 | in that state a client can read the object from one that it has pinned, and two inspections destroy it: the condition under which runs are safe is needed |
| Runs.NamedIsLive | gc.cpp:1174-1196 | every object that a client can name through its handles and what it has pinned is reachable |
| Runs.CopyCounts | gc.cpp:1095-1153 | a copy is refused exactly to fields, from a pin to a pin, and from an object under construction to anything but its first root handle; any other one counts once, but for that first handle and for one that marks construction, and changes nothing else |
| Runs.DropCounts | gc.cpp:1174-1222 | dropping a handle counts down, and flags the object exactly if the upgrade succeeded and neither a root handle nor a field holds it any more; nothing else changes |
| Runs.StepKeepsInvariant | gc.cpp:336-409 | allocating, copying, dropping, initializing, storing and collecting each keep flags sound, reference counts right and every root count equal to the number of handles held |
| Runs.RunsAreSafe | gc.cpp:1095-1222 | in every state of every run no reachable object is flagged or destroyed or holds anything that is, and what was flagged earlier is unreachable for good |
| Runs.ForwardAndBackward | gc.cpp:632-688 | following fields forwards from the roots reaches the same objects, in the same number of steps, as following references backwards to a root |
| Layout.CorrectionAligns | include/gca/gc-internal.h:75-78 | the corrected address is aligned |
| Layout.CorrectionIsLeast | include/gca/gc-internal.h:75-78 | no aligned address is skipped |
| Layout.FirstFitDecides | gc.cpp:760-801 | allocation finds a place exactly if the page has a free aligned range of the requested size; the place is in bounds, free and aligned, and the lowest such |
| Layout.EmptyPageFits | gc.cpp:803-827 | an empty aligned page takes every request up to its size, at its start |
| Layout.RecordKeepsOrder | gc.cpp:776-797 | with the promised block recorded the list stays sorted, disjoint and in bounds |
| Layout.RecordedRightIffNoGapFits | gc.cpp:776-797 | what the code records is the promised block, and leaves the list in order, if and only if no gap before a block has room for the request and the padding needed there |
| Layout.AppendedIffNoGapFits | gc.cpp:766-797 | a request goes behind the last block if and only if no gap has room for it |
| Layout.ScanIsFirstFit | gc.cpp:760-801 | in machine arithmetic the search is the first fit on every ordered list, if size and alignment together do not wrap around |
| Layout.GapIsPromisedTwice | gc.cpp:776-780 | whenever a gap has room, the code as written places the request there and promises the same place to the next such request |
| Layout.EmptyRequestFits | gc.cpp:760-801 | for a request of 0 bytes every page has a place, however full it is |
| Layout.RemoveAbsent | gc.cpp:290-292 | removing a span that is not recorded changes nothing |
| Layout.RemoveErases | gc.cpp:281-295 | removing a recorded block erases its first occurrence and keeps the order of the others |
| Layout.RemoveRestores | gc.cpp:281-295 | removing what was just allocated restores the list; with the list as the code leaves it, if and only if no gap has room for the request |
| Layout.GapCounterexample | gc.cpp:776-780 | a page where a request is promised offset 8 and recorded at offset 24 |
| Layout.GapIsRecordedBehind | gc.cpp:776-780 | whenever a gap has room, the block that is recorded lies as far behind the end of the block after the gap as the promised memory lies behind the end of the one before it, and in front of that block in the list |
| Layout.PaddedGapExample | gc.cpp:776-780 | with padding of 4 bytes: a request is promised offset 8 and recorded at offset 36 |
| Compaction.TargetBelow | gc.cpp:254-256 | the target of a move is aligned and not above the object, so the unsigned gap does not underflow |
| Compaction.CompactKeepsLayout | gc.cpp:228-279 | whatever locks are refused, blocks stay sorted, disjoint, in bounds and aligned, in their order and with their sizes; nothing moves up and nothing immovable moves |
| Compaction.CompactFreesTail | gc.cpp:228-279 | the free tail of the page never shrinks |
| Compaction.CompactIsDense | gc.cpp:254-268 | with all locks free, every movable object ends less than one element above the lowest aligned address behind its predecessor |
| Compaction.CompactSlides | gc.cpp:228-279 | for all refusals of locks, in terms of offsets alone: each object is tried to lock exactly if it is movable and at least one element above the lowest aligned offset behind its predecessor, goes to just that offset if the lock is had, and stays otherwise |
| Compaction.StaysOrLowest | gc.cpp:254-268 | whichever locks are refused, each object stays or gets the lowest aligned offset behind its predecessor |
| Compaction.FreeObjectsSlide | gc.cpp:254-268 | with all locks free it stays only if it cannot move or would move by less than an element |
| Compaction.SecondPassMovesNothing | gc.cpp:228-279 | after compaction with all locks free another compaction moves nothing and takes no lock |
| Compaction.CompactionContinues | gc.cpp:237-274 | one turn of the loop in place is one step of the compaction of the whole list |
| Compaction.OthersCarried | gc.cpp:319-330 | sliding one block down, with changes only from its new place to its old end, leaves the bytes of every other block alone |
| Compaction.MoveExample | gc.cpp:254-268 | a movable array behind a gap of one element moves to the start of its page |
| Compaction.LaidIsOrdered | gc.cpp:237-274 | a compacted list is again one that allocation accepts: sorted, disjoint and in bounds |
| AddressIndex.EntriesApart | include/gca/gc-internal.h:323-336 | registered objects, on whatever pages or large, never share memory |
| AddressIndex.OwnerIsUnique | gc.cpp:1270-1283 | an address inside an object that starts no object is accepted by the scan for that object only, despite the inclusive bound |
| AddressIndex.ScanIsCertainIff | gc.cpp:1259-1268 | without the exact lookup the scan is certain to find the owner, in every order, if and only if no object ends at the address |
| AddressIndex.GapIsTakenTwice | gc.cpp:776-780 | after the code as written has placed an object in a gap, the next such request is promised the address of that object, which the lookup knows |
| AddressIndex.EmptyRequestLeavesBlock | gc.cpp:84-119 | after a request of 0 bytes there is a block on the page for which no object is registered |
| AddressIndex.EmptyBlockHasNoObject | gc.cpp:704-712 | where pages, lookup and handles agree, nothing is registered for a block of size 0, at whatever address |
| AddressIndex.ScanCounterexample | gc.cpp:1259-1268 | two adjacent objects, in an index that agrees, are both accepted at the address where the second one starts |
| AddressIndex.RegisterAgrees | gc.cpp:714-758 | registering a recorded free block collides with no entry of the lookup and keeps pages, lookup and handles in one-to-one agreement |
| AddressIndex.AsWrittenAgreesIffNoGapFits | gc.cpp:776-797 | with blocks recorded as the code does it, agreement survives an allocation if and only if no gap of the page has room for the request |
| AddressIndex.EmptyRequestDisagrees | gc.cpp:84-119 | on every page a request of 0 bytes records a block that no object has, and agreement is lost |
| AddressIndex.RelocateAgrees | gc.cpp:297-334 | sliding an object down collides with no entry of the lookup and keeps agreement |
| AddressIndex.RelocateFound | gc.cpp:312-316 | relocation keeps which objects are on the page, in their order |
| AddressIndex.UnregisterAgrees | gc.cpp:601-630 | destroying an object finds its entry and its block and keeps agreement |
| AddressIndex.UndeadIsLookedUp | gc.cpp:690-702 | a handle is in the lookup if and only if it is not destroyed |
| AddressIndex.UnregisterForgets | gc.cpp:511-524 | after a destruction the lookup again leads to just the handles that are not destroyed, each at its own address |
| AddressIndex.RegisterWhereRoom | gc.cpp:714-758 | a first fit on a page can be registered: the blocks, the lookup and the handles agree again, and just those not destroyed can be looked up |
| AddressIndex.AddPageAgrees | gc.cpp:861-887 | a new page in unused memory keeps agreement |
| AddressIndex.RegisterLargeAgrees | gc.cpp:38-46 | a large object in unused memory collides with nothing and keeps agreement |
| AddressIndex.UnregisterLargeAgrees | gc.cpp:204-215 | destroying a large object and removing it by swapping keeps agreement |
| Requests.SurvivorsAreLeft | gc.cpp:427-477 | on every heap and for all refusals, what stays of a page is its list without what the pass destroyed, and nothing off the page is destroyed |
| Requests.BlocksLeft | gc.cpp:601-630 | if objects of a page go and no other one moves, the blocks of the others are what is left, in their order |
| Requests.FreeOutlook | gc.cpp:86-109 | with all locks free, what the three attempts on a page find follows from what is reachable: its blocks, those of its reachable objects, and these packed |
| Requests.LookingNext | gc.cpp:60-109 | page after page: a request is served on the next page at the lowest place of the first of these layouts with room, or ends in a wait for an id or a lock, or goes on, if and only if it should according to the pages as they were at the start |
| RwLock.StepRefines | include/gca/gc-util.h:228-365 | every single step of every thread, with stale locals, is a step of an ideal lock or changes nothing for it, and keeps the invariant |
| RwLock.LockIsExact | include/gca/gc-util.h:228-365 | in every reachable state the word is the exact reader count, 0 to 128, with no writer, or 129 with one writer and no reader; a thread between operations has the lock in its set if and only if it is the writer |
| RwLock.FullCountBlocks | include/gca/gc-util.h:244-304 | with 128 readers no step of any thread takes a further access of either kind |
| RwLock.TryAcquireWriteAchieves | include/gca/gc-util.h:250-258 | from every state of the invariant, write access is had if and only if nobody has any access; otherwise nothing happens |
| RwLock.ReadAchieves | include/gca/gc-util.h:278-303 | undisturbed, an attempt to read adds one access of that thread if and only if there is no writer and fewer than 128 readers; one without any attempts allowed does nothing |
| RwLock.SwapReadAchieves | include/gca/gc-util.h:278-303 | a swap that finds the word as last seen adds one access; any other one changes nothing for anybody, and ends just the last attempt allowed |
| RwLock.UpgradeAnswersTruly | include/gca/gc-util.h:306-314 | for a thread holding an access, an upgrade that answers yes leaves it the writer, and one that answers no changes nothing |
| RwLock.TryUpgradeAchieves | include/gca/gc-util.h:306-314 | the sole reader becomes the writer, and for anybody else nothing happens |
| RwLock.UpgradeAchieves | include/gca/gc-util.h:328-339 | the blocking upgrade does the same undisturbed, returns at once for the writer, and waits while there are other readers |
| RwLock.DownGradeAchieves | include/gca/gc-util.h:341-346 | the writer becomes the one reader, and for readers nothing happens |
| RwLock.ReleaseAchieves | include/gca/gc-util.h:348-365 | a release takes away just one access of that thread, the write access or one read |
| RwLock.SwapReleaseRetries | include/gca/gc-util.h:356-361 | a swap of a release that fails takes nothing away and has seen the word for the next one |
| RwLock.SetsFollow | include/gca/gc-util.h:328-365 | the thread's set is brought in line with what it holds, whatever other threads did meanwhile |
| RwLock.UpgradeNeedsHolder | include/gca/gc-util.h:306-314 | an upgrade from one reader keeps the word exact if and only if the upgrading thread is that reader |
| RwLock.FreedIffNobodyHolds | include/gca/gc-util.h:348-365 | the word is free for a writer if and only if no thread holds an access |
| AtomicFlags.FlagsAreAtomic | include/gca/gc-util.h:145-165 | every interleaving equals executing the finished calls one after the other: no update is lost and every call answers whether it changed the word |
| AtomicFlags.BitsFollowCalls | include/gca/gc-util.h:145-165 | in every interleaving, a bit that no finished call touches is as at the start, and any other one is set if and only if the last finished call that touches it enables it |
| AtomicFlags.AnswerIffSomeBitChanges | include/gca/gc-util.h:145-165 | a call is told that it changed the word if and only if some bit was another one before it |
| AtomicFlags.LoadAchieves | include/gca/gc-util.h:145-165 | a call that finds its work done returns at once, and any other one goes on to swap |
| AtomicFlags.SwapAchieves | include/gca/gc-util.h:145-165 | a swap that finds the word as last seen sets or clears just the bits of its mask; any other one is as good as a new load |
| AtomicFlags.EnabledFlagsStay | include/gca/gc-util.h:156-165 | a flag once set stays set while no call clears it |
| AtomicFlags.OneInitializer | gc.cpp:1320-1322 | among calls executed one after the other the first request for the right to initialize is told yes and no other |
| AtomicFlags.InitializedOnce | gc.cpp:1320-1322 | in every interleaving of requests for the right to initialize with updates of other flags exactly one finished request is told yes |
| Handles.Handle.constructor | include/gca/gc-internal.h:146-151 | a handle starts with one root reference, uninitialized, with null fields, immovable exactly if its type cannot move |
| Handles.Handle.SetField | gc.cpp:336-409 | in place: the heap becomes what `Objects.SetField` says, or stays as it was if that throws |
| Handles.Handle.EraseReference | gc.cpp:372-379 | in place: the first occurrence of the owner is overwritten by the last entry and dropped |
| Handles.Handle.ClearFields | gc.cpp:545-594 | in place: all known fields become null, one `SetField` after the other; it never returns if and only if one of the targets is the object itself, destroyed, or one of which this thread has the lock |
| Handles.Handle.Copy | gc.cpp:1095-1153 | in place: the root count grows exactly for copies to roots and pins that the roles allow, and the others throw and change nothing |
| Handles.Handle.Destroy | gc.cpp:1174-1222 | in place: the root count drops for roots and pins, and the object is flagged if it was the last one, nothing references it and the upgrade succeeded |
| Handles.Page.TryAllocate | gc.cpp:760-801 | on every list of blocks and for every size the loop computes the search in machine arithmetic and records what it found, as written or repaired |
| Handles.Page.RemoveAllocation | gc.cpp:281-295 | the loop computes the removal of the first matching block |
| Handles.Page.MoveElements | gc.cpp:319-330 | an array moved down element by element by at least one element arrives as it was, although source and target overlap and each move ruins what it leaves behind; nothing outside changes |
| GcImpl.Gc.constructor | gc.cpp:17-25 | the empty collector meets the invariant of all operations |
| GcImpl.Gc.TryFindRootFor | gc.cpp:632-688 | the recursive search in place computes `References.Search`, terminates on every graph, and restores every mark bit of every id |
| GcImpl.Gc.DestroyObject | gc.cpp:601-630 | in place: the object is destroyed as `Objects.Destroy` says and leaves lookup and page as `AddressIndex.Unregister` says, or it never returns, if and only if an initialized object holds itself, a destroyed one, or one that this thread has pinned |
| GcImpl.Gc.CollectOnPage | gc.cpp:411-486 | in place: a pass over the page computes `Collection.CollectList` on heap, page and lock attempts and keeps the invariant, and leaves the other pages alone; it waits forever for an id from the ninth pass on, and for a lock if and only if `Waiting.PassWaits`, and returns otherwise |
| GcImpl.Gc.ReclaimPage | gc.cpp:411-486 | in place, for all refusals: the blocks of the survivors are left where they were, and those of what was destroyed are gone |
| GcImpl.Gc.CollectLargeObjectsFast | gc.cpp:130-151 | in place: computes `LargeObjects.SweepFast` and keeps the invariant, or never returns, if and only if `Waiting.SweepFastWaits` |
| GcImpl.Gc.CollectLargeObjectsSlow | gc.cpp:153-226 | in place: computes `LargeObjects.SweepSlow` and keeps the invariant; it waits forever for an id from the ninth pass on, and for a lock if and only if `Waiting.SweepSlowWaits` |
| GcImpl.Gc.RelocateObject | gc.cpp:297-334 | in place: lookup, handle and block follow the move, an initialized object keeps its bytes and fields, only memory between its new start and its old end changes, and the fields of an object that is not initialized are lost if they matter |
| GcImpl.Gc.DefragmentOnPage | gc.cpp:228-279 | in place: computes `Compaction.Compact`, keeps which objects are where and the bytes of every initialized one; only objects that it moved although their fields are fragile lose their fields, and if it moved none it keeps the whole invariant |
| GcImpl.Gc.CompactPage | gc.cpp:228-279 | compacting one page, unless fields are lost, keeps the bytes of every initialized object, on this and on all other pages, and keeps which objects lie on each page, in their order; fields are lost only if some object is fragile |
| GcImpl.Gc.AllocateOnPage | gc.cpp:86-109 | in place, once the lock of the page is had, and for all refusals of other locks: the object goes to the lowest place of the page as it is, else as a collection leaves it, else as a compaction does; there is no object if and only if none of the three has room, or a wait: for an id if none is left, or for a lock if and only if the pass waits |
| GcImpl.Gc.RegisterObject | gc.cpp:714-758 | the memory is zeroed, a handle in its starting state is new in container and lookup, and nothing else changes |
| GcImpl.Gc.TryAllocateOn | gc.cpp:86-119 | an attempt on one page, of at least one byte, succeeds exactly if there is room, at the lowest address, zeroed, and keeps the invariant; a failed one changes nothing; one of 0 bytes fails, yet records a block, so that pages and lookup no longer agree |
| GcImpl.Gc.NewPage | gc.cpp:861-898 | a page is added exactly if its memory is aligned |
| GcImpl.Gc.TryAllocateOnNewPage | gc.cpp:803-828 | an object is returned if and only if the memory of the page is aligned and the request is not empty; otherwise there was an exception, or the end that must not be reached was, and agreement is lost |
| GcImpl.Gc.AllocateLarge | gc.cpp:32-57 | fast pass, which may never return, then a registered large object at the end of the list, or an exception, exactly if the allocator returned nothing |
| GcImpl.Gc.Allocate | gc.cpp:27-128 | for every request and every refusal of locks: the invariant is kept; every initialized object on a page is destroyed or still registered with its bytes, and with no live cycle nothing reachable is destroyed and nothing changes about what is reachable; the outcome is a new registered handle in its starting state, an exception or an endless wait. With all locks free and no live cycle, a small request gets the lowest place of the first page that has room, as it is, or once its unreachable objects are gone, or once the reachable ones are packed; a page is added if and only if there is no such page; it waits for an id or a lock exactly if ids run out, or the garbage of the pages collected for it has a snag, before that. For all refusals it succeeds if the first page of which the lock is free has room, and waits for a lock only with a live cycle or with garbage that holds garbage or what the calling thread has pinned. For large objects each outcome comes exactly in the case described; fields are lost only if some object is fragile. An empty request never returns an object |
| GcImpl.GentleKeepsReachable | gc.cpp:1066-1082 | what `Allocate` and `Collect` promise means that with no live cycle every reachable initialized object on a page is still registered there, with its bytes |
| GcImpl.Gc.Collect | gc.cpp:1066-1082 | collecting and compacting all pages keeps the invariant; every initialized object on a page is destroyed or still registered with its bytes, and with no live cycle nothing reachable is destroyed; without waiting for a lock it ends exactly if there is a collector id left for each page; with all locks free and no live cycle every page then holds just its reachable objects, in order, each where it was or, if compaction was asked for, packed, and it waits forever for a lock if and only if the garbage of the pages that it comes to has an object that holds itself, a destroyed one, one that the calling thread has pinned, or an earlier one; fields are lost only if some object is fragile and compaction was asked for |
| GcImpl.Gc.GetOwningObject | gc.cpp:1259-1268 | the scan in any order returns some object that its inclusive test accepts, and nothing exactly if there is none; if no object ends at the address it returns the one that contains it |
| GcImpl.Gc.LookupObjectOrGetOwningObject | gc.cpp:1270-1283 | for an address inside an object the result is that object, whatever the order of the scan |

## Left out

- The public handle, pin and field templates, `dyn` casts and `tagged_ptr` in include/gca/gc.h: template plumbing over the operations modelled here.
- Debug listeners, the assertion handler, exception texts and the `Init`/`Destroy` singleton.
- The allocators and memory resources: what they return is a parameter, and giving memory back is not modelled.
- `ptr_safe_container`: handles are a set that only grows, as removal leaves slots taken.
- The object locks that `SetField`, `Copy`, `Destroy` and the pins take and release, among them the double release at gc.cpp:385; of attempts to take them only the outcomes are modelled. The exceptions are the lock of a destroyed object, which is never released, and those that the calling thread has by pins of its own; locks of other threads that a destruction waits for at gc.cpp:571 are assumed to be released at some time.
- Handles.Handle.SetField: omits the locks taken on the new and the old value.
- Handles.Handle.ClearFields: assumes that locks which other threads have on targets that are not destroyed are released at some time.
- Handles.Handle.Copy: omits the locks that pins acquire.
- Handles.Handle.Destroy: omits the locks that pins release and the protective read lock; whether the upgrade succeeds is a parameter.
- Collection.CollectListIsComplete: is about passes that return or about a collector that does not wait for locks that are never free.
- LargeObjects.SweepSlowIsComplete: the same.
- GcImpl.Gc.AllocateSmall: where a small request is served is exact with all locks free and no live cycle; when some locks are refused it is exact for each page on its own (`GcImpl.Gc.AllocateOnPage`), but over all pages only as far as the first page of which the lock is free has room. An endless wait in the pass over large objects behind the pages is not told apart from one for garbage, and nothing is promised about where objects lie once fields were lost.
- GcImpl.Gc.Collect: stops when fields are lost, while the code goes on with whatever they have become.
- The assertions that the write lock can be had before a destruction (gc.cpp:140, gc.cpp:199, gc.cpp:461).
- Several collectors sharing one graph, allocation racing with collection, and weak memory orderings; lock and flags are modelled with interleaved, sequentially consistent steps.
- The type registry (`GetOrRegisterType`), `mutex` and the scoped guards; a handle holds its type.
- The widths of `rootHandleCount` and of addresses; `size_t` wraps only where `TryAllocate` adds size and padding, and the product of element size and count (gc.cpp:32) is taken not to overflow.
- Calls of user code: `destructor`, `getFieldCount`, `getField` and `move`. A move leaves anything behind at its source. The known fields of all elements of an array are one sequence, and fields of unknown type are not modelled.
- The bytes of large objects.
- The flag bits of a handle are separate fields in `Handle`; that updates of different bits do not disturb each other is `AtomicFlags`.
- The destructor of `gc_impl` (gc.cpp:909-970).
- GcImpl.Gc.Allocate: the memory of a new page is assumed unused by the large objects present at the call, so that it is not that of one which the same call destroys.
- GcImpl.Gc.TryAllocateOn: allocates with the gap branch repaired; with the code as written the invariant would break, as `AddressIndex.AsWrittenAgreesIffNoGapFits` shows.
- GcImpl.Gc.RemoveLarge: swaps before it destroys also in the slow pass, where the code swaps afterwards; the outcome is the same.
- GcImpl.Gc.AllocateOnPage: reserves and registers in one step, while the code registers behind the third attempt.
- Runs.StepKeepsInvariant: collections that meet a live cycle count as enabled only where the object is flagged already or the search finds no root; `Runs.LiveCycleIsLost` shows that they cannot all be. Runs do not end where a destruction would wait forever.
