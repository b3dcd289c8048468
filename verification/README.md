# The TinyCLR managed runtime, verified

This project models the core of the managed runtime under `CLR/Core` in Dafny and proves what it is for. Each
part follows the source's own form: objects with fields are classes, loops are loops, and every method is proved
against a specification about which the main theorems are stated. `dafny verify dfyconfig.toml` checks everything.

* **Memory manager.** `HeapMemory` is the heap as an array of equal cells; addresses are cell numbers (units of
  `CLR_RT_HeapBlock`), and only a ghost set knows which cells are headers. `HeapCluster` allocates from, frees
  into and sweeps one cluster; `Heap` and `HeapSetup` are the clusters together and how they are laid out.
  `Relocation`, `Compaction`, `CompactionSteps`, `Tiling`, `PointerPass` and `Compactor` are the compaction,
  `CompactionProgress` and `CompactionEnd` what it achieves, `CompactionResults` and `CompactionGraph` what it
  preserves. `Reachability`, `Marking` and `MarkPhase` are the mark phase with a bounded stack; `Collection` is a
  whole collection. `EventCache` recycles the records
  of the runtime itself.
* **Virtual-method cache.** `Lru` is the common specification. `HashCache` implements it over `LinkRings`, rings
  of array indices; `AvlCache` over `AvlTree`, `AvlBalance`, `AvlUpdate` and `NodesInUse`. The resolver, the
  checksum and the test for a method that the class defines itself are arbitrary functions.
* **Threads.** `MonitorState` and `Monitor` are locks with recursion and queues. `LockTimeouts` is the pass over
  the lists of threads that takes back overdue requests, on values, and `TimeoutPass` the same on the engine's
  locks and ready list. `WaitForObject` is waiting for events; `Scheduler` is the ready list.
* **Calls.** `InlineFrame` has the inlined and the full call. What a callee does is an arbitrary function of its
  arguments and initial locals; it leaves arbitrary values in its own slots.
* **Text.** `Utf` has RFC 3629 and the conversions as functions, `UnicodeHelper` the conversions as loops over
  buffers.

## Where the code does less than one might expect

* While a thread runs it keeps its place in the ready list, with its counter already debited. A thread that gets
  ready in the meantime can be put in front of threads that rank above it: `Scheduler.ArrivalKeepsOrder` says
  exactly when it is not, `Scheduler.ArrivalCanBreakOrder` has an example.
* The decoder does not take off the base that the encoder adds for characters outside the basic plane
  (`CLR/Core/CLR_RT_UnicodeHelper.cpp:275-276` and `:365`). `Utf.RoundTripIff` says exactly which texts come back.
* `CountNumberOfBytes` compares its limit before each character, so a limit inside a surrogate pair is never met
  and the whole text is counted (`Utf.CountLimited`), while the encoder stops behind the pair
  (`Utf.ToUtf8IsStandard`). `Utf.CountAgrees` says exactly when the two agree, `Utf.CountDisagrees` has an example;
  the string made from such a range of characters is longer than its text (`UnicodeHelper.CreateString`).
* The comment at `CLR/Core/Execution.cpp:1154-1158` says that the highest counter is kept in
  `m_GlobalExecutionCounter`; the code keeps the lowest one, and so does the model.
* Emptying the event cache writes free headers that no free list contains (`CLR/Core/Cache.cpp:385-409`). Until
  the sweep has rebuilt the lists, marking can therefore rely on the tiling only; `Heap.HeapTiled` is what it needs.
* A compaction may end with a movable block right behind a free one, if a run exactly fills the last free block
  of a list (`CompactionEnd.FullLeavesLoose`): a payload of a free block of 2 cells, a pinned block and two movable
  blocks of 2 cells ends with the second movable block behind the hole of the first (`CompactionEnd.ExampleIsLoose`).
  Such holes are all that can be left: for every heap, what is loose at the end stands behind part of the hole of a
  run that has filled its new place exactly up to an unmovable block
  (`Compactor.GarbageCollector.HeapCompact`, by `CompactionEnd.RoundTidy` and `CompactionEnd.RoundFills`). There are no
  such runs, and nothing loose is left, when the heap is `CompactionEnd.Orderly` before the call.
* The pass that takes back overdue lock requests walks two lists from which the requests themselves move threads. The
  walk keeps the next thread in hand; if that one is restarted, it goes on in the ready list and ends there
  (`LockTimeouts.CheckCanMiss`). `LockTimeouts.CheckExact` says exactly when one pass is complete, provided that no
  thread is restarted before its own locks have been looked at (`LockTimeouts.RestartedEarly` is the example without)
  and that none of the threads to be restarted is ready; what is left is taken back by later passes
  (`LockTimeouts.CheckProgress`).
* A sub-thread that goes away releases its locks before its requests are withdrawn. A lock that it is the last to hold
  and for which its own request is the oldest goes back to it (`Monitor.HandedBack`); unless the walk comes to that
  lock again, it stays locked. `Monitor.OnlyLastMatters` and `Monitor.MonitorEngine.DestroySubThread` say when.

## Reading the model

* One cell holds at most one object pointer. An object's slots follow its header; the object of a delegate is in the
  cell behind its header.
* Lists of nodes (free lists, lists of locks, queues, the event cache) are sequences with the list operations of
  `CLR/Include/TinyCLR_Runtime__HeapBlock.h:1436-1580`; the end node of a free list is the address in front of the
  payload. The rings of the hash cache and the links of the tree are modelled link by link.
* 16-bit sizes and 32-bit relocation offsets wrap around as in the source. The product `blocks * 20` of the event
  cache cannot wrap for a size that a block can have.
* Locks live in a table and are named by their index, threads and sub-threads by numbers. The ticket of a request
  is a history variable: it numbers requests in the order of their creation.
* Clocks, the resolver, the checksum, what a thread wants after its quantum and what a callee computes are
  parameters.

## Model

| member | source | states |
|---|---|---|
| `HeapCluster.Cluster.Initialize` | CLR/Core/CLR_RT_HeapCluster.cpp:9-43 | whatever block size the payload is first cut into, one free block spanning the payload is left, and nothing outside the payload changes |
| `HeapCluster.Cluster.ExtractBlocks` | CLR/Core/CLR_RT_HeapCluster.cpp:45-137 | fails exactly when no free block is large enough; an object takes the head of the lowest fitting block, an event record the tail of the highest; the remainder stays free in its place, everything else is unchanged, and the cluster stays tiled, ordered and coalesced |
| `HeapCluster.Cluster.FindFreeBlock` | CLR/Core/CLR_RT_HeapCluster.cpp:53-80 | the choice of the block: none below (object) or above (event) it is large enough |
| `HeapCluster.Allocated` | CLR/Core/CLR_RT_HeapCluster.cpp:82-132 | cutting or taking a free block keeps the tiling, the list of exactly the free blocks in address order, and the absence of adjacent free blocks |
| `HeapCluster.Cluster.RecoverFromGC` | CLR/Core/CLR_RT_HeapCluster.cpp:141-207 | every marked block is still there with its size, unmarked unless it is an event record; every maximal run of unmarked blocks has become one free block; the result is a well-formed cluster |
| `HeapCluster.SweepRun` | CLR/Core/CLR_RT_HeapCluster.cpp:158-192 | one run: the merged block extends to the next marked block and is appended to the list |
| `HeapCluster.SweepDone` | CLR/Core/CLR_RT_HeapCluster.cpp:201-206 | at the end of the payload the list holds exactly the free blocks, no two of them adjacent |
| `HeapCluster.Cluster.InsertInOrder` | CLR/Core/CLR_RT_HeapCluster.cpp:209-244 | the returned range becomes part of one maximal free block made of it and the free neighbours that touch it; every other used block keeps its place and contents; the cluster is well formed again |
| `HeapCluster.HoleFreed` | CLR/Core/CLR_RT_HeapCluster.cpp:209-244 | why: merging with the list neighbours is enough to leave no two free blocks adjacent |
| `HeapCluster.HoleKeepsUsed` | CLR/Core/CLR_RT_HeapCluster.cpp:209-244 | no used block is touched by the merge |
| `Heap.BlocksApart` | CLR/Core/CLR_RT_HeapCluster.cpp:45-244 | two blocks of the heap never overlap, and no block crosses the end of a cluster |
| `Heap.ClusterChanged` | CLR/Core/CLR_RT_HeapCluster.cpp:45-244 | a change inside one cluster keeps the whole heap well formed |
| `HeapSetup.AllocateHeaps` | CLR/Core/Execution.cpp:207-253 | fails exactly when the memory does not exceed one cluster header; otherwise the clusters follow each other in address order, cover all bytes but a rest too small for a header, and each is one free block |
| `HeapSetup.PayloadFits` | CLR/Core/Execution.cpp:212-253 | clusters are cut so that no block, however often merged, can reach HB_MaxSize |
| `Compactor.GarbageCollector.HeapCompact` | CLR/Core/GarbageCollector_Compaction.cpp:43-282 | ends, for any heap and any batch size of at least 1, with a well-formed heap in which every used block stands, whole, where one increasing list of downward moves puts it, with all pointers in it and in the roots following; if it moved nothing, nothing was loose; whatever is loose at the end lies behind a free block that is part of the hole left by a run which has filled its new place up to an unmovable block below the old one; and nothing is loose at the end if in no cluster a movable block lay above an unmovable one that had anything but unmovable blocks below it |
| `Compactor.GarbageCollector.MoveNext` | CLR/Core/GarbageCollector_Compaction.cpp:146-249 | one round: either a run moves down and is recorded, or the block at hand neither touches the free region nor fits into it and the next free region of the list comes up |
| `Compactor.GarbageCollector.MoveRun` | CLR/Core/GarbageCollector_Compaction.cpp:204-237 | a run of movable blocks is copied into the free block below it; all other used blocks stay; both free lists are in order again |
| `Compactor.GarbageCollector.FindRun` | CLR/Core/GarbageCollector_Compaction.cpp:159-188 | the run is made of whole movable blocks, fits the free block unless it slides, and is empty only if its first block does not fit |
| `Compactor.GarbageCollector.FirstFreeRegion` | CLR/Core/GarbageCollector_Compaction.cpp:73-89 | the lowest free block of the clusters that follow |
| `Compactor.GarbageCollector.NextSource` | CLR/Core/GarbageCollector_Compaction.cpp:93-108 | the next block that may be moved; every block skipped is pinned, free, an event record or below the free region |
| `Compactor.GarbageCollector.MoveRound` | CLR/Core/GarbageCollector_Compaction.cpp:132-268 | either the source position or the free-region position advances, which is why the pass ends |
| `Compactor.GarbageCollector.FlushIfFull` | CLR/Core/GarbageCollector_Compaction.cpp:132-144 | flushing a full batch brings all pointers up to date with all moves so far |
| `Compaction.MoveStep` | CLR/Core/GarbageCollector_Compaction.cpp:151-243 | one move keeps the correspondence of old and new blocks; the list of moves stays increasing and disjoint, so no block moves twice |
| `Compaction.BatchApplied` | CLR/Core/GarbageCollector_Compaction.cpp:132-144 | after a batch has been applied the pointers agree with the places of all blocks |
| `CompactionResults.ReferencesFollow` | CLR/Core/GarbageCollector_Compaction.cpp:43-438 | a pointer to offset j of object t has become a pointer to offset j of the new place of t, in the same cell of an object with the same type, size and flags; pinned and event blocks have not moved |
| `CompactionResults.ForeignPointersStay` | CLR/Core/GarbageCollector_Compaction.cpp:397-438 | a pointer outside every moved region is unchanged |
| `CompactionResults.ObjectsCorrespond` | CLR/Core/GarbageCollector_Compaction.cpp:43-282 | compaction is one-to-one on used blocks, and no used block appears from nowhere |
| `CompactionResults.FreeSizeConserved` | CLR/Core/GarbageCollector_Compaction.cpp:43-282 | the free lists of all clusters together hold as many cells after compaction as before |
| `CompactionResults.UsedCountConserved` | CLR/Core/GarbageCollector_Compaction.cpp:43-282 | as many cells belong to used blocks after compaction as before |
| `CompactionGraph.GraphMoves` | CLR/Core/GarbageCollector_Compaction.cpp:43-282 | every reference of the compacted heap is null or leads to a used block of it |
| `CompactionGraph.ReachMoves` | CLR/Core/GarbageCollector_Compaction.cpp:43-282 | an object is reachable from the moved sources exactly if it was reachable from the old ones |
| `CompactionGraph.SourcesMove` | CLR/Core/GarbageCollector_Compaction.cpp:324-382 | the moved roots and finalizers hold exactly the moved objects that they held |
| `CompactionGraph.ReadyAgain` | CLR/Core/GarbageCollector_Compaction.cpp:43-282 | the compacted heap with its moved roots meets the whole precondition of the next collection |
| `CompactionProgress.SearchGoesOn` | CLR/Core/GarbageCollector_Compaction.cpp:245-266 | while nothing has been moved, passing on to the next free block skips no chance of a move |
| `CompactionProgress.SearchDone` | CLR/Core/GarbageCollector_Compaction.cpp:64-272 | a search that ends without a move has excluded every free block |
| `CompactionEnd.RoundTidy` | CLR/Core/GarbageCollector_Compaction.cpp:146-249 | after any round what is loose is still ahead of the pass, or behind a hole that counts; the hole of the round counts if the run has exactly filled a free block of its own cluster that it did not touch |
| `CompactionEnd.RoundFills` | CLR/Core/GarbageCollector_Compaction.cpp:204-243 | such a run ends, at its new place, at an unmovable block that stood below it, in the same cluster, in the heap before the call |
| `CompactionEnd.TidyGoesOn` | CLR/Core/GarbageCollector_Compaction.cpp:245-266 | so it is when a free region that fits nothing is left for the next one |
| `CompactionEnd.FullIsBlocked` | CLR/Core/GarbageCollector_Compaction.cpp:204-243 | a free block below the movable one at hand and not touching it means an unmovable block between them, in the heap as it was |
| `CompactionEnd.FullLeavesLoose` | CLR/Core/GarbageCollector_Compaction.cpp:204-243 | and when the run exactly fills the only free block of its cluster, a movable block right behind the run is loose afterwards |
| `CompactionEnd.ExampleIsHeap` | CLR/Core/GarbageCollector_Compaction.cpp:43-282 | a payload of a free block of 2 cells, a pinned block and two movable blocks of 2 cells is a well-formed cluster that is not orderly |
| `CompactionEnd.ExampleIsLoose` | CLR/Core/GarbageCollector_Compaction.cpp:204-243 | whatever one round does to it: the first movable block fills the free one, the second one is loose, and no free region is left to go on with |
| `Compactor.GarbageCollector.HeapRelocate` | CLR/Core/GarbageCollector_Compaction.cpp:324-382 | every pointer of every used block and of the roots is rewritten by the batch, exactly once, and nothing else changes |
| `Compactor.GarbageCollector.RelocateCluster` | CLR/Core/GarbageCollector_Compaction.cpp:366-379 | the block-by-block pass over one cluster reaches every pointer of it |
| `Relocation.RelocatePointer` | CLR/Core/GarbageCollector_Compaction.cpp:397-438 | the binary search with its 32-bit offset computes where the batch moves an address, for every address |
| `Relocation.RelocMoves` | CLR/Core/GarbageCollector_Compaction.cpp:397-438 | an address changes exactly when it lies in a moved region, and only downwards |
| `Relocation.RelocCompose` | CLR/Core/GarbageCollector_Compaction.cpp:132-144 | rewriting batch by batch equals rewriting once by all moves |
| `Relocation.RegionBounds` | CLR/Core/GarbageCollector_Compaction.cpp:329-341 | minimum and maximum are those of the batch |
| `Marking.Marker.ComputeReachabilityGraphForMultipleBlocks` | CLR/Core/GarbageCollector_ComputeReachabilityGraph.cpp:38-292 | for a stack of any capacity of at least 2: ends with an empty stack; the marks are sound, the cells it was called for lead to marked blocks only, and, unless the overflow flag is set, no marked block below the limit leads to an unmarked one; the flag is newly set only if something was newly marked |
| `Marking.Marker.VisitNext` | CLR/Core/GarbageCollector_ComputeReachabilityGraph.cpp:54-290 | one round keeps the tri-colour invariant and leaves fewer untouched blocks or fewer cells to visit |
| `Marking.Marker.Fetch` | CLR/Core/GarbageCollector_ComputeReachabilityGraph.cpp:56-158 | taking the next cell off the run or the stack loses none of the cells to be visited |
| `Marking.Marker.Visit` | CLR/Core/GarbageCollector_ComputeReachabilityGraph.cpp:160-288 | marks one cell and goes on with exactly what it leads to: the target of a reference, the fields of an instance, the elements of an array of references, the object of a delegate, the entries of a list of delegates that is not weak |
| `Reachability.Fetched` | CLR/Core/GarbageCollector_ComputeReachabilityGraph.cpp:56-158 | the invariant is about which cells are grey, not about where they are kept |
| `Reachability.Visited` | CLR/Core/GarbageCollector_ComputeReachabilityGraph.cpp:160-288 | turning a grey cell black, with its children grey, keeps the invariant |
| `Reachability.Dropped` | CLR/Core/GarbageCollector_ComputeReachabilityGraph.cpp:135-146 | dropping a run keeps all of the invariant that holds with the overflow flag set, and something was marked before |
| `Reachability.EdgeIs` | CLR/Core/GarbageCollector_ComputeReachabilityGraph.cpp:160-288 | the edges of the object graph are, type by type, the pointers of a block: the fields of an instance up to its end, the elements of an array of references, the object of a delegate, the entries of a strong list of delegates |
| `Reachability.GraphLeads` | CLR/Core/GarbageCollector_ComputeReachabilityGraph.cpp:160-288 | in a graph in order each of those pointers of a used block leads to a used block |
| `Marking.VisitProgress` | CLR/Core/GarbageCollector_ComputeReachabilityGraph.cpp:54-290 | why the loop ends |
| `Marking.Marker.CheckMultipleBlocks` | CLR/Core/GarbageCollector_ComputeReachabilityGraph.cpp:38-292 | everything a run of root cells points at is marked |
| `Marking.Marker.CheckSingleBlock` | CLR/Core/GarbageCollector_ComputeReachabilityGraph.cpp:29-36 | a non-null object is marked afterwards |
| `Marking.Marker.RescanCluster` | CLR/Core/GarbageCollector.cpp:279-292 | the rescan closes the marked set up to the end of a cluster, or reports an overflow together with a new mark |
| `Marking.Marker.MarkSlow` | CLR/Core/GarbageCollector.cpp:265-294 | ends, because every overflowing pass marks a new block, and leaves a marked set closed under references |
| `MarkPhase.Collector.MarkRoots` | CLR/Core/GarbageCollector.cpp:346-394 | everything held by the roots or by a finalizer that is to run is marked |
| `MarkPhase.Collector.MarkFinalizable` | CLR/Core/GarbageCollector.cpp:412-429 | the finalizers move in order to the pending list if their object was unmarked, and all objects are marked then; an object whose finalizer stays is an event record or reachable from the roots, the pending finalizers and the objects revived before it, and, unless cells were dropped meanwhile, one whose finalizer moves is neither |
| `MarkPhase.PickConserves` | CLR/Core/GarbageCollector.cpp:412-429 | no finalizer is lost or doubled when the two lists are made |
| `MarkPhase.Collector.Mark` | CLR/Core/GarbageCollector.cpp:296-438 | whatever the stack size: a block is marked at the end exactly if it is an event record or reachable from the roots and pending finalizers, and every pointer of a marked block, type by type, leads to a marked block; every finalizer that moved had an object unreachable before, every one that stayed an object that was reachable when its turn came |
| `MarkPhase.MarkedExactly` | CLR/Core/GarbageCollector.cpp:296-438 | a closed, sound marking that contains the sources is reachability itself |
| `Collection.Gc.Sweep` | CLR/Core/GarbageCollector.cpp:556-565 | from any tiled heap, whatever its free lists say, to a well-formed one in which the used blocks are the marked ones, in place and unchanged |
| `Collection.Gc.MarkAndSweep` | CLR/Core/GarbageCollector.cpp:162-164 | the used blocks afterwards are exactly the live ones, in place with their contents; every pointer of a used block, type by type, and all roots and finalizers lead to used blocks; a finalizer is queued only if its object was unreachable before, and kept only if it was reachable when its turn came; none is lost; the heap is ready for allocation and for the next collection |
| `Collection.Gc.ExecuteGarbageCollection` | CLR/Core/GarbageCollector.cpp:133-255 | the same, with the event cache emptied first: its blocks are reclaimed, none is left, and the byte counts are those of the new heap |
| `Collection.CollectedGraph` | CLR/Core/GarbageCollector.cpp:133-255 | the object graph a collection leaves satisfies the precondition of the next one |
| `Collection.Gc.ComputeAliveVsDeadRatio` | CLR/Core/GarbageCollector.cpp:830-855 | the total is the free bytes plus 12 bytes for every cell of a used block |
| `CompactionResults.HeapUnits` | CLR/Core/GarbageCollector.cpp:830-855 | used cells and free lists add up to the payloads |
| `EventCache.EventLists.AppendNode` | CLR/Core/Cache.cpp:413-432 | a used block joins the back of the list for its size; heap and cache stay in order, and nothing else changes |
| `EventCache.EventLists.ExtractNode` | CLR/Core/Cache.cpp:434-552 | misses exactly when no cached block fits; a hit is the smallest cached block that fits, cut to exactly the requested size, the tail cached again and all other cells unchanged; a small request gets the block that has waited longest |
| `EventCache.EventLists.ExtractNodeFast` | CLR/Core/Cache.cpp:506-535 | the same for sizes with a list of their own |
| `EventCache.EventLists.ExtractNodeSlow` | CLR/Core/Cache.cpp:434-504 | the same for the others: the best fit whenever one is within floor(20n/16) |
| `EventCache.EventLists.FindBest` | CLR/Core/Cache.cpp:440-463 | the scan finds a smallest block among those with an acceptable size, or there is none |
| `EventCache.EventLists.Requeue` | CLR/Core/Cache.cpp:472-480 | cutting a cached block in two keeps heap and cache in order |
| `EventCache.EventLists.Cleanup` | CLR/Core/Cache.cpp:385-409 | exactly the cached blocks become free headers, all lists are empty, and the result is the sum of their sizes |
| `EventCache.AllocationKeepsCache` | CLR/Core/Cache.cpp:503 | an allocation from the heap, as after a miss, keeps the cache's invariant |
| `EventCache.Appended` | CLR/Core/Cache.cpp:413-432 | list i > 0 holds only blocks of size i and list 0 only sizes from 40 on, every cached block once |
| `EventCache.NotYetCached` | CLR/Core/Cache.cpp:413-432 | any used block that is not cached yet may be given to the cache |
| `EventCache.CleanedTiled` | CLR/Core/Cache.cpp:385-409 | the heap without a cache is still tiled, though its free lists do not list the new free blocks |
| `HashCache.VirtualMethodTable.constructor` | CLR/Core/Cache.cpp:180-211 | an empty table: all rings are proper rings and no entry is in a bucket |
| `HashCache.VirtualMethodTable.FindVirtualMethod` | CLR/Core/Cache.cpp:213-311 | answers what the resolver (or the shortcut) answers, and updates the cached keys as a least-recently-used list of the table size does; rings and buckets stay in order |
| `HashCache.VirtualMethodTable.Search` | CLR/Core/Cache.cpp:282-308 | the walk over a bucket ring ends, and finds the key exactly if the bucket has it |
| `HashCache.VirtualMethodTable.CachedExactly` | CLR/Core/Cache.cpp:213-347 | after any run of lookups a key is in the table exactly if it was used and fewer than N different keys have been used since |
| `HashCache.VirtualMethodTable.Promote` | CLR/Core/Cache.cpp:310-311 | the entry becomes the first of its bucket and of the order of use |
| `HashCache.VirtualMethodTable.Miss` | CLR/Core/Cache.cpp:295-311 | the least recently used entry is taken over |
| `LinkRings.MoveEntryToTop` | CLR/Core/Cache.cpp:316-347 | on index links: the node leaves the ring it is in and becomes the first of the given one; all rings stay doubly linked circles |
| `Lru.RunIsRecent` | CLR/Core/Cache.cpp:213-347 | the specification: the cache holds the first N values in the order of their last use |
| `Lru.ReuseDistance` | CLR/Core/Cache.cpp:213-347 | before a value in the order of use come exactly the values used since its last use |
| `Lru.CachedIff` | CLR/Core/Cache.cpp:213-347 | a value is cached exactly if fewer than N different values have been used since its last use |
| `AvlTree.RotateLeft` | CLR/Core/AVLTree.cpp:57-82 | the counterclockwise rotation on the node pool |
| `AvlTree.RotateRight` | CLR/Core/AVLTree.cpp:84-109 | the clockwise rotation |
| `AvlTree.LeftRotation` | CLR/Core/AVLTree.cpp:57-82 | a left rotation keeps nodes, keys and search order |
| `AvlTree.RightRotation` | CLR/Core/AVLTree.cpp:84-109 | a right rotation keeps nodes, keys and search order |
| `AvlBalance.LeftGrown` | CLR/Core/AVLTree.cpp:122-181 | restores exact skew flags after the left subtree has grown; ResBalance exactly if the height has grown |
| `AvlBalance.RightGrown` | CLR/Core/AVLTree.cpp:183-242 | restores exact skew flags after the right subtree has grown; ResBalance exactly if the height has grown |
| `AvlBalance.LeftShrunk` | CLR/Core/AVLTree.cpp:258-329 | restores exact skew flags after the left subtree has shrunk; ResBalance exactly if the height has shrunk |
| `AvlBalance.RightShrunk` | CLR/Core/AVLTree.cpp:331-402 | restores exact skew flags after the right subtree has shrunk; ResBalance exactly if the height has shrunk |
| `AvlCache.VirtualMethodTable.InsertAt` | CLR/Core/AVLTree.cpp:533-572 | adds exactly the given key and one free node, stays ordered with exact skew flags, tells whether the height has grown; a duplicate or an empty pool changes nothing |
| `AvlCache.VirtualMethodTable.RemoveAt` | CLR/Core/AVLTree.cpp:598-645 | removes exactly the given key, frees one node, stays ordered with exact skew flags, tells whether the height has shrunk; an absent key changes nothing |
| `AvlCache.VirtualMethodTable.FindHighest` | CLR/Core/AVLTree.cpp:428-465 | takes the node of the highest key out and stores its payload in the target |
| `AvlCache.VirtualMethodTable.FindLowest` | CLR/Core/AVLTree.cpp:467-502 | takes the node of the lowest key out and stores its payload in the target |
| `AvlCache.VirtualMethodTable.Find` | CLR/Core/AVLTree.cpp:28-50 | finds a node with the key exactly if the key is present, with at most as many comparisons as the tree is high |
| `AvlTree.HeightBound` | CLR/Core/AVLTree.cpp:533-645 | a balanced tree of height h has at least Fib(h + 2) - 1 nodes |
| `AvlCache.VirtualMethodTable.SearchBound` | CLR/Core/AVLTree.cpp:28-50 | so a search in a pool of n nodes takes s comparisons only if Fib(s + 2) <= n + 1 |
| `AvlTree.CompareRank` | CLR/Core/Cache.cpp:11-20 | the comparison of keys is a total order |
| `AvlCache.VirtualMethodTable.constructor` | CLR/Core/Cache.cpp:23-51 | an empty tree; all nodes are free |
| `AvlCache.VirtualMethodTable.FindVirtualMethod` | CLR/Core/Cache.cpp:53-135 | answers what the resolver (or the shortcut) answers and updates the cached keys as a least-recently-used list does; tree nodes and in-use list are the same, and with the free nodes make up the pool |
| `AvlCache.VirtualMethodTable.CachedExactly` | CLR/Core/Cache.cpp:53-135 | after any run of lookups a key is in the tree exactly if it was used and fewer than n different keys have been used since |
| `AvlCache.VirtualMethodTable.Evict` | CLR/Core/Cache.cpp:107-127 | removes exactly the least recently used key; the order of the others stays |
| `AvlCache.VirtualMethodTable.Reassign` | CLR/Core/Cache.cpp:166-176 | payload and place in the order of use go over to another node |
| `NodesInUse.ReleasedKeys` | CLR/Core/Cache.cpp:157-176 | freeing another node than that of the removed key still takes exactly that key out of the order of use |
| `Monitor.MonitorEngine.LockObject` | CLR/Core/Execution.cpp:2670-2687 | a free object is locked, a lock of the same thread entered once more, any other gets a request at the end of its queue and the thread stops; it fails only when the object has no lock and no lock is left; all invariants hold |
| `Monitor.MonitorEngine.UnlockObject` | CLR/Core/Execution.cpp:2689-2701 | fails, changing nothing, exactly if the sub-thread has not entered; otherwise it leaves once and the last to leave hands the lock on |
| `Monitor.MonitorEngine.IncrementOwnership` | CLR/Core/CLR_RT_HeapBlock_Lock.cpp:134-171 | one entry more for the sub-thread, or one request more in the queue |
| `Monitor.MonitorEngine.DecrementOwnership` | CLR/Core/CLR_RT_HeapBlock_Lock.cpp:173-207 | one entry less; without owners the lock goes to the next request or back to the pool |
| `Monitor.MonitorEngine.ChangeOwner` | CLR/Core/CLR_RT_HeapBlock_Lock.cpp:68-132 | the lock goes to the first request, or to the pool if there is none, and to the list of the new thread |
| `Monitor.HandOverIsFifo` | CLR/Core/CLR_RT_HeapBlock_Lock.cpp:68-100 | of the requests still queued the oldest is granted; the others keep their order |
| `Monitor.MonitorEngine.DestroyOwner` | CLR/Core/CLR_RT_HeapBlock_Lock.cpp:50-66 | all entries of the sub-thread are gone, all others stay |
| `Monitor.MonitorEngine.CreateRequest` | CLR/Core/CLR_RT_HeapBlock_LockRequest.cpp:9-27 | the request is queued last and counted for its sub-thread and its thread |
| `Monitor.MonitorEngine.ChangeLockRequestCount` | CLR/Core/Thread.cpp:78-98 | both counts change together, and the thread waits exactly while its count is not zero |
| `Monitor.MonitorEngine.DeleteLockRequests` | CLR/Core/Execution.cpp:2363-2397 | no request of the sub-thread is left in any queue, in spite of both early returns; the other requests keep their order |
| `Monitor.KeepCounts` | CLR/Core/Execution.cpp:2373-2391 | a queue keeps each request that is not withdrawn, as often as before, and no other |
| `LockTimeouts.CheckExact` | CLR/Core/Execution.cpp:2565-2660 | of all states in which no thread that is going to be restarted is ready, or is restarted before its turn while there is something overdue at its own locks: one pass takes back everything overdue exactly if no visit restarts the thread that comes next in the waiting list while there is more to do behind it |
| `LockTimeouts.CheckCanMiss` | CLR/Core/Execution.cpp:2565-2660 | four waiting threads for which a pass follows a restarted thread into the ready list and leaves an overdue request in its queue |
| `LockTimeouts.RestartedEarly` | CLR/Core/Execution.cpp:2565-2660 | four waiting threads for which one is restarted before its turn and its own overdue requests are left |
| `LockTimeouts.CheckProgress` | CLR/Core/Execution.cpp:2565-2660 | as long as something is overdue at the locks of a listed thread, every pass takes some of it back |
| `LockTimeouts.CheckOrder` | CLR/Core/Execution.cpp:2565-2660 | a pass leaves the ready list in order if it was, and with it every restarted thread |
| `LockTimeouts.RestartOrder` | CLR/Core/Thread.cpp:385-400 | restarting a thread leaves the ready list in order: it stands behind all that rank at least as high and before all that rank lower, the others as before |
| `LockTimeouts.WalkSane` | CLR/Core/Execution.cpp:2565-2660 | no thread gets lost or is listed twice; of a thread the walk takes back all that is overdue or nothing |
| `TimeoutPass.ExecutionEngine.Restart` | CLR/Core/Thread.cpp:385-400 | the thread leaves its list and goes to its place in the ready list: behind all that rank at least as high, before the first that ranks lower, the others in their order |
| `TimeoutPass.ExecutionEngine.CheckQueue` | CLR/Core/Execution.cpp:2614-2625 | exactly the requests whose time is over leave the queue; the requesters are restarted in that order, each as soon as its thread has no request left |
| `TimeoutPass.ExecutionEngine.CheckThread` | CLR/Core/Execution.cpp:2612-2627 | the same for all queues of the locks of one thread; no other queue changes |
| `TimeoutPass.ExecutionEngine.CheckThreads` | CLR/Core/Execution.cpp:2565-2660 | the loop over a list of threads that changes under it ends, and does what the walk of the value model does |
| `TimeoutPass.ExecutionEngine.CheckLockRequests` | CLR/Core/Execution.cpp:2446-2447 | the ready list, then the waiting one: the new state is that of the value model, all monitor invariants and the order of the ready list hold, each queue is as before or rid of exactly what was overdue, and all of them are, under the condition above, exactly if nobody is overtaken |
| `TimeoutPass.CountsCover` | CLR/Core/Thread.cpp:78-98 | no thread has fewer requests counted than are overdue in all queues together |
| `Monitor.MonitorEngine.FindLockObject` | CLR/Core/Execution.cpp:2312-2359 | finds the lock on an object exactly if there is one |
| `Monitor.MonitorEngine.DestroySubThread` | CLR/Core/Thread.cpp:34-76 | the walk over a list of locks that changes under it ends; no request of the sub-thread is left and, unless a lock it is the last to hold has its own request first in the queue, exactly its own entries are gone, locks it was the last to hold have been handed on once, and every other lock is untouched; if only the last lock of its list can move, and is of that kind, it ends in possession of it |
| `Monitor.OnlyLastMatters` | CLR/Core/Thread.cpp:59-63 | if all other locks of the list have other owners too, that is the case exactly if the last one is of that kind |
| `Monitor.HandedBack` | CLR/Core/Thread.cpp:59-63 | a state that meets all invariants in which it is: the sub-thread holds one lock and has made the only request for it |
| `MonitorState.QueuedOk` | CLR/Core/CLR_RT_HeapBlock_LockRequest.cpp:9-27 | a queue that changes together with both counts keeps the state in order: counts equal queued requests, locks have owners, owners belong to the owning thread |
| `MonitorState.LockGiven` | CLR/Core/CLR_RT_HeapBlock_Lock.cpp:84-117 | handing a lock on keeps every lock in exactly one list, that of its owner |
| `MonitorState.NonePending` | CLR/Core/Execution.cpp:2367-2371 | a sub-thread whose count is zero has no request anywhere |
| `WaitForObject.EventTable.SignalObject` | CLR/Core/CLR_RT_HeapBlock_WaitForObject.cpp:125-143 | the waiting threads try in order of arrival; each that stops waiting has its answer, and all others keep theirs; nobody is left waiting for what is there; an auto-reset event ends at most one wait |
| `WaitForObject.EventTable.TryWaitForSignal` | CLR/Core/CLR_RT_HeapBlock_WaitForObject.cpp:59-123 | a wait-any ends with the index of the first signaled event of its set and resets that one only, if it resets itself; a wait-all ends with 0x103 and resets exactly those of its set that reset themselves; a wait that does not end changes nothing |
| `WaitForObject.EventTable.WaitForSignal` | CLR/Core/CLR_RT_HeapBlock_WaitForObject.cpp:145-175 | ends at once, as above, exactly if it can, else joins the waiting threads; too many or null references change nothing; no wake-up is lost |
| `WaitForObject.EventTable.Expire` | CLR/Core/Execution.cpp:2503-2518 | a timeout takes no event |
| `WaitForObject.EventTable.ResetEvent` | CLR/Libraries/CorLib/corlib_native_System_Threading_WaitHandle.cpp:46-54 | resetting an event cannot satisfy a wait |
| `WaitForObject.AutoResetEndsOne` | CLR/Core/CLR_RT_HeapBlock_WaitForObject.cpp:125-143 | of any list of waiting threads a signal of an auto-reset event ends at most one wait, and is used up by it |
| `WaitForObject.PassComplete` | CLR/Core/CLR_RT_HeapBlock_WaitForObject.cpp:125-143 | stopping when the auto-reset event is gone leaves out nobody who could go on |
| `WaitForObject.PassLeavesNone` | CLR/Core/CLR_RT_HeapBlock_WaitForObject.cpp:125-143 | after a pass no thread of the list has a wait set that is satisfied |
| `Scheduler.Engine.ScheduleThread` | CLR/Core/Execution.cpp:1173-1302 | the first ready thread runs a quantum; the ready list stays sorted, without repetition |
| `Scheduler.Engine.InsertThreadRoundRobin` | CLR/Core/Execution.cpp:1427-1460 | puts a thread behind all that rank at least as high and in front of the first one with a smaller rank |
| `Scheduler.InsertedSorted` | CLR/Core/Execution.cpp:1373-1399 | insertion keeps the list sorted and puts a thread behind those it ties with |
| `Scheduler.Engine.Debit` | CLR/Core/Execution.cpp:1236-1254 | the counter is first brought down to the lowest one plus 33 if it is higher, then lowered by 2 to the power of the priority's distance from the highest; so it ends below the lowest counter plus 33, and the lowest counter is kept |
| `Scheduler.DebitDoubles` | CLR/Include/TinyCLR_Runtime.h:2540-2547 | each step down in priority doubles what a quantum costs |
| `Scheduler.NoStarvation` | CLR/Core/Execution.cpp:1173-1302 | without arrivals a ready thread runs after at most as many quanta as the counter gaps of the others allow |
| `Scheduler.QuantumLowersBound` | CLR/Core/Execution.cpp:1173-1302 | every quantum another thread gets lowers that bound |
| `Scheduler.ArrivalKeepsOrder` | CLR/Core/Execution.cpp:1373-1399 | a thread that gets ready during a quantum leaves the list sorted exactly if it does not rank above the running thread, or ranks at least as high as every other one |
| `Scheduler.ArrivalCanBreakOrder` | CLR/Core/Execution.cpp:1373-1399 | three threads for which it does not |
| `InlineFrame.StackFrame.PushInline` | CLR/Core/CLR_RT_StackFrame.cpp:300-383 | succeeds exactly under the listed conditions; then the frame is the callee's, its locals are initialized, and no slot of the caller is touched |
| `InlineFrame.StackFrame.PopInline` | CLR/Core/CLR_RT_StackFrame.cpp:385-412 | the caller's frame is back, arguments popped, the promoted result pushed; slots in use are unchanged |
| `InlineFrame.StackFrame.RestoreFromInlineStack` | CLR/Core/CLR_RT_StackFrame.cpp:414-424 | the saved fields come back, and the stack end is where it was before the locals were cut off |
| `InlineFrame.StackFrame.Push` | CLR/Core/CLR_RT_StackFrame.cpp:20-280 | a frame of its own for the callee that starts at the callee's code, with initialized locals, room for its stack and no inlining; the caller keeps all slots |
| `InlineFrame.StackFrame.Pop` | CLR/Core/CLR_RT_StackFrame.cpp:860-940 | the caller goes on with arguments popped and the promoted result pushed |
| `InlineFrame.StackFrame.CallInlined` | CLR/Core/Interpreter.cpp:1944-1999 | a whole call the fast way, for any callee that respects its declared stack |
| `InlineFrame.StackFrame.CallFull` | CLR/Core/Interpreter.cpp:1944-1999 | a whole call the full way, with the same effect on the caller |
| `InlineFrame.InlineEqualsFull` | CLR/Core/Interpreter.cpp:1944-1999 | two calls with that effect leave the same frame and the same values in all slots in use |
| `InlineFrame.CalleeFits` | CLR/Core/CLR_RT_StackFrame.cpp:300-345 | the callee's evaluation stack never meets its locals nor a slot in use by the caller |
| `Utf.ToUtf8IsStandard` | CLR/Core/CLR_RT_UnicodeHelper.cpp:316-419 | for well-formed text and any limit the converter produces the encoding of section 3 of RFC 3629 of the text up to the limit, or to the end of the pair that the limit splits |
| `Utf.CountAgrees` | CLR/Core/CLR_RT_UnicodeHelper.cpp:75-120 | as many bytes are counted as are written exactly if the limit is behind the text, at the end of a character, or splits the last pair; never fewer |
| `Utf.CountDisagrees` | CLR/Core/CLR_RT_UnicodeHelper.cpp:75-120 | for U+10000 followed by A and a limit of 1, 5 bytes are counted and 4 are written |
| `Utf.CountRejects` | CLR/Core/CLR_RT_UnicodeHelper.cpp:75-120 | with any negative limit the count is -1 exactly for text that is not well formed |
| `Utf.CountLimited` | CLR/Core/CLR_RT_UnicodeHelper.cpp:75-120 | what is counted is the size of the encoding of the text up to the limit, unless the limit is negative or splits a pair: then that of the whole text |
| `Utf.DecodeText` | CLR/Core/CLR_RT_UnicodeHelper.cpp:124-314 | whatever follows a well-formed text, the decoder goes on behind its encoding as it would there |
| `Utf.DecodeStops` | CLR/Core/CLR_RT_UnicodeHelper.cpp:124-314 | and fails there, with the text written, at a terminator before the limit, at a byte that starts no character, at a character that the limit cuts off, and for lack of space |
| `Utf.RoundTrip` | CLR/Core/CLR_RT_UnicodeHelper.cpp:124-314 | what decoding the encoding yields, for all well-formed text: high surrogates come out too high by 0x40 |
| `Utf.RoundTripIff` | CLR/Core/CLR_RT_UnicodeHelper.cpp:275-276 | the original comes back exactly if the text has no surrogates |
| `Utf.RoundTripFails` | CLR/Core/CLR_RT_UnicodeHelper.cpp:275-276 | it does not for U+10000 |
| `Utf.CountCharsIsLength` | CLR/Core/CLR_RT_UnicodeHelper.cpp:17-73 | the characters counted in the encoding of a text are its units, and with a limit those of its first so many characters |
| `UnicodeHelper.Helper.CountNumberOfBytes` | CLR/Core/CLR_RT_UnicodeHelper.cpp:75-120 | the loop over the input computes the count of the value model |
| `UnicodeHelper.Helper.CountNumberOfCharacters` | CLR/Core/CLR_RT_UnicodeHelper.cpp:17-73 | the loop over the input computes the count of the value model |
| `UnicodeHelper.Helper.ConvertToUtf8` | CLR/Core/CLR_RT_UnicodeHelper.cpp:316-419 | succeeds exactly if encoding and terminator fit; then exactly these are written |
| `UnicodeHelper.Helper.ConvertFromUtf8` | CLR/Core/CLR_RT_UnicodeHelper.cpp:124-314 | succeeds and writes what the value model of the decoder says, within units, bytes and space |
| `UnicodeHelper.CreateString` | CLR/Core/CLR_RT_HeapBlock_String.cpp:91-106 | for well-formed text and any length the new string starts with the encoding of the text up to the length, and the terminator; it holds nothing else unless the length splits a pair, and then has room for the whole text |

## Left out

* Mark stacks of several segments: the load that follows the save at
  `CLR/Core/GarbageCollector_ComputeReachabilityGraph.cpp:98-103` reloads the segment just saved, and line 112 can
  make a segment with room only for its sentinel. The model has one segment of any capacity of at least 2 and the
  allocation of another one failing.
* Weak references and weak delegates, interior pointers during marking, application domains and assemblies as
  separate roots (`CLR/Core/GarbageCollector.cpp:444-549, 648-776`); roots are runs of cells and single objects.
* Memory pressure, and the loop that tries all clusters, collects and tries again
  (`CLR/Core/GarbageCollector.cpp:570-640`, `CLR/Core/Execution.cpp:1597-1700`). A miss of the event cache ends
  with the answer that the heap is to be asked.
* The fill patterns of debug builds, and the links inside cached and free blocks.
* Out-of-memory while an owner or a request is allocated, suspended threads, and the shortcut from an object to its
  lock; the lists are searched instead.
* Scheduling: rebasing of the counters (`CLR/Core/Execution.cpp:1159-1171`), the static-constructor thread, the
  finalizer thread, interrupts and completions; requests are withdrawn for a sub-thread, not for a whole thread.
* The bytecode interpreter beyond call and return, and calls across application domains.
* `fJustMove` and the update of the input pointers of the converters; a read behind the end of a buffer yields 0.
  Ill-formed UTF-16 has no standard encoding, so nothing is claimed about what the encoder makes of it.
* `CLR_RT_HeapBlock_Queue`, `CLR_RT_HeapBlock_Stack`, array lists, strings beyond their creation, drivers, boot
  loaders, debugger, profiler, serialization and reflection.
* The other work of the pass over the threads: event and wait timeouts, time constraints and suspended threads
  (`CLR/Core/Execution.cpp:2570-2606, 2629-2660`); a restart for one of those moves threads under the same walk.
* Monitor.MonitorEngine.DestroySubThread: if a lock that is not the last of its list goes back to the sub-thread, only
  the withdrawal of its requests is promised; the walk may or may not come to that lock again.
* LockTimeouts.CheckExact: nothing is said about completeness when threads are restarted before their own locks have been
  looked at; whether those are visited then depends on the ranks in the ready list.
* Collection.Gc.Sweep: targets of weak delegate lists are not cleared, as weak delegates are not modelled.
* Collection.Gc.MarkAndSweep: the step between mark and sweep that clears weak references is not modelled.
* Collection.Gc.ExecuteGarbageCollection: weak references, memory pressure and the decision to compact are not modelled.
* Scheduler.Engine.ScheduleThread: the branches for the static-constructor thread and the finalizer thread are not
  modelled.
* InlineFrame.StackFrame.Push: native, delegate and synchronized callees and a failing allocation are not modelled.
* InlineFrame.StackFrame.Pop: constructor calls and the release of a lock on return are not modelled.
* EventCache.EventLists.ExtractNode: with zero false nothing is said about the contents of the block but that
  they are the old ones.
