# Verified model of the DMS block driver core

The driver serves a distributed block volume. It caches where the blocks of a volume are
(metadata), splits each kernel request into homogeneous DMS_IOs, asks the namenode for locations,
and collects the acknowledgements of the datanodes until the request can be completed and the
namenode told. This project models the parts of it that carry state across calls, and proves what
they keep:

- `RadixKeys`, `RadixShape`, `RadixNeeds`, `RadixTree`, `RadixScan` – the 64-bit radix tree of
  64-slot nodes, on the heap, with its node pool: insertion, lookup, deletion, growing, shrinking
  and the ascending range scan. The tree is a map from 64-bit keys to items, its shape is a function
  of the keys, every node in the pool is blank, and an insertion fails exactly when memory runs out
  for the nodes that `RadixNeeds` counts: those that the keys with the new one need beyond those of
  the keys without it.
- `TreeLeaf`, `CacheModel`, `CacheHistory`, `CacheBatches`, `CacheFinds`, `CacheRuns`, `CacheReader`,
  `CacheEffect`, `CacheMemory`, `MetaCache` – the metadata cache: every leaf is in the tree and in an LRU
  list, readers hold counted references, and a leaf that left the cache is freed by whoever gives back
  the last one. `CacheModel` is a
  machine of small steps, whose runs (`CacheHistory`) are all interleavings; the methods of
  `MetaCache.Volume` take such steps and nothing else (`Goes`: the history after a call extends the
  one before). `CacheReader` keeps account of the references: however returns are interleaved with
  everything else, a leaf has as many as it occurs in baskets, and none is lost. `CacheEffect` says what
  each operation comes to, block by block and place by place of the list.
- `Allocation`, `LinkedRing`, `BlockList`, `DioSplit` – splitting a request: the run of equal
  allocation flags found 64 at a time, and the circular block lists that are sorted, cut and
  emptied by pointer surgery.
- `DList` – the list whose stored iterator survives insertions and removals.
- `AckPolicy`, `AckRequest`, `AckRun`, `AckResult`, `AckAnswer`, `AckObject`, `AckDriver` –
  acknowledgements of the replicas in any order, one answer for several located requests at a time, committed from located request to DMS_IO to kernel request, and once to
  the namenode. `AckRun` is the protocol on values; `AckObject` and `AckDriver` are the handlers on
  the objects: located requests, metadata with a pointer to their DMS_IO that is cleared, block
  lists that are rings of `LinkedRing`, and the list of DMS_IOs that is one of `DList`.
- `Words`, `Options`, `Sets` – the width of a block number, the option type, and sizes of sets.
- `NetBytes`, `MetadataResponse`, `MetadataRoundTrip` – parsing the namenode's metadata response.

Most modules have two layers: values with pure functions and lemmas about all runs, and classes or
methods on the heap in the form of the C code, whose contracts tie the heap to the values.

## Where the code does not do what it seems meant to do

- `cache_find` computes `start + count` on 64 bits. A range that reaches the last block number
  wraps to 0 and finds nothing: `FindServes` gives the exact condition, `LastBlockMissed` an input.
- The reader count of a leaf has 31 bits; one more reader is counted right exactly below that, and at
  the limit becomes the delete mark (`OneMoreReader`). A hit requires a count below the limit.
- `cache_update` reports success although it stopped early exactly when memory for a leaf runs out
  after the first block and before the last, and memory for nodes does not run out before that
  (`CacheUpdate`; `PartialUpdate` is an input).
- The cache respects its size while no update is larger than it (`CapacityInvariant`). After any such
  run a complete update exceeds the size if and only if it is larger itself (`LargerUpdateOverfills`).
- An eviction takes the least recently used leaves it is asked for if and only if it is asked for at
  least one or the list is empty: asked for 0, it takes one (`KickTakesWhatIsAsked`). That is how the
  function behaves; its callers ask for a positive number or for all.
- A failed first insertion leaves a height above 0 and no root node exactly when the tree is empty of
  nodes, the key is not 0 and there is no memory for a node (`Insert`). The range scan follows the
  root pointer without a test: it faults exactly when the tree is in that state and the scan has to
  look (`GangLookup` with `ScanSafe`; `ScanAfterFailure` is an input), and so does `CacheFind`.
  `CacheUpdate` says exactly when it leaves a tidy tree in that state; complete updates, finds,
  invalidations and evictions keep the tree tidy. A tree that a failure left untidy gets into that
  state only under the same condition.
- `radix_tree_preload` promises that after it an insertion cannot fail. It loads 12 nodes, and that
  is enough exactly under the condition of `PreloadEnough`; up to 21 are needed (`NeededMost`,
  `MostReached`; `PreloadNotEnough` is an input).
- The node counter goes up also when an allocation fails: an insertion puts it off by one exactly
  when there is less memory than the nodes it needs (`Insert` with `NodesNeeded`).
- `Commit_LB_List_by_Range` takes out only blocks of its range if and only if the count is positive
  or the first block is not listed (`RangeRespected`; `EmptyRangeTakesOne` is an input).
- A removal by user data that finds nothing rewinds an iterator at the end of its list: it disturbs
  the iteration exactly then, unless the list is empty (`MissOnPlan`, `MissRepeats`).
- The comment on `dn_result` wants a disk answer never overwritten. That holds for the plain disk
  answer (`DiskNoteStays`) and not for that of a partial write (`DiskNoteKept`).
- The metadata parser returns 0 for a response without located requests or with one that has no
  datanode (`ParsesBack`), although the drawing at the head of `Metadata.h` has such blocks. Its
  block offset is a short, so each located request starts where those before it end if and only if
  the blocks before it fit a short (`Tiling`; `TilingOfCounts` for counts that are not negative).
- The failure of a read is dropped (a TODO at DriverCore/Driver_Core.c:249-250). When every replica was
  heard a write was ended, a read if and only if each of its located requests was read from some
  replica (`EndedWhenHeard`); one that was not keeps its request from being ended for good
  (`LostStays`; `LostReadHangs` is an input).

The comment at DriverCore/DIO.c:605 states as intended that the first code that is committed stays
the result of a DMS_IO; the same is done for the kernel request. `ResultsAre` gives both results and
the code that the request is ended with for every run, and `FailureDoesNotShow` a run in which a
later failure shows nowhere.

## Modelling choices

- Keys, counters and bytes are integers with their range written out. Shifts and masks of keys are
  division and remainder; `ShrIsPrefix` and `PackFacts` connect the two readings.
- `tree_lock` is held for every find, update, invalidate and kick, also for `kick_meta_cache`, which
  the comment at DriverCore/cache/cache.c:503 asks of its caller. Giving references back needs only
  the leaf lock, so it interleaves with everything else.
- How many allocations succeed is an input: `memory` of a tree for its nodes, which may change between
  any two calls (`MemoryChanges`), and `leafMem` for the leaves of an update. Every number is possible
  for both, so memory may run out, and come back, anywhere. The slots of a node are a sequence field of the node, and each tree has its own pool
  of free nodes.
- A null pointer that the scan follows is the result `fault`.
- The condition of an eviction and the check of a list removal are pure functions of the data.
- `Get_Allocation_Flag` is a stub in the repository. It is modelled as a bitmap of which it returns
  the 64 bits that contain the block. The 64-bit shift that DriverCore/DIO.c:368 needs is taken for
  the `int` shift it has. Longs have 64 bits.
- Block ranges are below 2^64, and a kernel request is shorter than 2^31 - 64 blocks, as the C int
  in `__Get_Continuous_Range` needs.
- The counters of missing acknowledgements start at the number of replicas, as the policy comment
  says; the repository never sets them. A replica of a write sends one memory and one disk answer,
  in either order, or one failure, and a replica of a read one answer or one failure (`MaySend`).
- On values a DMS_IO and its metadata are one record (`Part`). On the heap they are two objects, and
  the metadata points to the DMS_IO until this leaves the request. The list of DMS_IOs holds their
  numbers (`did`), which differ.
- The buffer is memory read at computed positions. Fields that the parser stores with less width
  than it reads are converted as C does.

## Model

| member | source | states |
|---|---|---|
| RadixKeys.ShrIsPrefix | DriverCore/cache/radix-tree.c:229 | shifting a key right by six bits a level is dropping one base-64 digit a level |
| RadixKeys.FitsIffNoPrefix | DriverCore/cache/radix-tree.c:516-534 | the height table bounds exactly the keys without a digit above the height |
| RadixKeys.TallestHoldsAll | DriverCore/cache/radix-tree.c:54-57 | every 64-bit key fits height 11, so a path of 12 entries is enough |
| RadixShape.GrowLinked | DriverCore/cache/radix-tree.c:172-182 | a new root above the old one keeps the tree that of the same map |
| RadixShape.RaiseEmpty | DriverCore/cache/radix-tree.c:167-170 | an empty tree may be given any height |
| RadixShape.LinkLinked | DriverCore/cache/radix-tree.c:217-226 | linking a blank node where there was none keeps the tree that of the same map |
| RadixShape.StoreItemOk | DriverCore/cache/radix-tree.c:236-245 | storing an item in the slot of its key gives the tree of the updated map |
| RadixShape.NullMeansAbsent | DriverCore/cache/radix-tree.c:217 | a null slot on the way down means that no key below it is stored |
| RadixShape.ClearOk | DriverCore/cache/radix-tree.c:490-492 | clearing the stale slot of a removed key gives the tree of the smaller map, in which only the node just touched may be empty |
| RadixShape.DropStale | DriverCore/cache/radix-tree.c:500-501 | freeing an emptied node moves the stale slot one level up and changes no key |
| RadixShape.DropTidy | DriverCore/cache/radix-tree.c:494-502 | a node that lost its last entry is blank, and dropping it leaves no empty node |
| RadixShape.CollapseLinked | DriverCore/cache/radix-tree.c:426-441 | a root with only slot 0 can be replaced by that child without changing the map |
| RadixShape.CollapsedIsBlank | DriverCore/cache/radix-tree.c:436-438 | the root that shrinking frees is blank once slot 0 is cleared |
| RadixShape.UncollapsibleMinimal | DriverCore/cache/radix-tree.c:429-431 | when shrinking stops the height is minimal |
| RadixShape.HeightIsLeast | DriverCore/cache/radix-tree.c:148-151 | the height of a tidy tree is the least whose largest index covers the largest stored key |
| RadixShape.TidyShapeUnique | DriverCore/cache/radix-tree.c:195-508 | two tidy trees of one map have the same height and nodes at the same positions, however they came about |
| RadixNeeds.NeededMost | DriverCore/cache/radix-tree.c:54-57 | no insertion needs more than 21 nodes |
| RadixNeeds.NoWay | DriverCore/cache/radix-tree.c:156-185 | a key that does not fit the tree has no node on its way at any level that it reaches |
| RadixNeeds.TidyNodes | DriverCore/cache/radix-tree.c:195-248 | a tidy tree has exactly the node positions that its keys call for |
| RadixNeeds.NeededIsGrowth | DriverCore/cache/radix-tree.c:195-248 | the nodes that an insertion has to allocate are as many as the keys with the new one call for beyond those without it |
| RadixNeeds.PreloadEnough | DriverCore/cache/radix-tree.c:113-141 | a preload of MAX_PATH nodes is enough exactly if there is no root, the key fits, or the new height is small enough |
| RadixNeeds.MostReached | DriverCore/cache/radix-tree.c:113-141 | with only key 0 stored, the last key needs 21 nodes, more than a preload |
| RadixTrees.RadixTree.constructor | DriverCore/cache/radix-tree.c:560-567 | the empty tree: no node, no key, height 0 |
| RadixTrees.RadixTree.Alloc | DriverCore/cache/radix-tree.c:85-104 | a blank node that is not linked, or failure exactly when there is no memory; the counter goes up either way |
| RadixTrees.RadixTree.Free | DriverCore/cache/radix-tree.c:106-111 | only blank, unlinked nodes go to the pool |
| RadixTrees.RadixTree.GrowTo | DriverCore/cache/radix-tree.c:172-182 | grows to the wanted height, or fails exactly when there is memory for fewer roots than that; keeps the map either way |
| RadixTrees.RadixTree.HeightFor | DriverCore/cache/radix-tree.c:162-165 | the least height from the present one on that the key fits |
| RadixTrees.RadixTree.Extend | DriverCore/cache/radix-tree.c:156-185 | afterwards the key fits and its top digit is not 0; on failure the map is unchanged and there was too little memory |
| RadixTrees.RadixTree.MakePath | DriverCore/cache/radix-tree.c:211-234 | the descent of insertion reaches the slot of the key and adds the missing nodes, or fails exactly when there is memory for fewer, with the map unchanged |
| RadixTrees.RadixTree.StoreItem | DriverCore/cache/radix-tree.c:236-245 | the map gains exactly this key and item, and no node on the way stays empty |
| RadixTrees.RadixTree.Insert | DriverCore/cache/radix-tree.c:195-248 | updates one key and reports the item that was there, or fails with the map unchanged exactly when there is less memory than NodesNeeded; when it leaves a tree without the root it should have; keeps the shape, and the node count exactly on success |
| RadixTrees.RadixTree.Lookup | DriverCore/cache/radix-tree.c:250-308 | returns exactly what the map holds for the key |
| RadixTrees.RadixTree.DropRoot | DriverCore/cache/radix-tree.c:432-439 | one round of shrinking: the child becomes the root, the old root goes to the pool blank |
| RadixTrees.RadixTree.Shrink | DriverCore/cache/radix-tree.c:426-441 | keeps the map and makes the height minimal |
| RadixTrees.RadixTree.FindPath | DriverCore/cache/radix-tree.c:464-487 | the recorded path is the way from the root to the slot of the key, or the key is not stored |
| RadixTrees.RadixTree.FreeRound | DriverCore/cache/radix-tree.c:490-501 | one round of the freeing loop: the slot is cleared, and the node freed if it is empty, else the tree is whole again |
| RadixTrees.RadixTree.FreeUp | DriverCore/cache/radix-tree.c:490-502 | frees bottom-up until a node keeps an entry or all are gone |
| RadixTrees.RadixTree.Delete | DriverCore/cache/radix-tree.c:452-508 | removes one key and returns its item or null; keeps the shape and the node count |
| RadixTrees.RadixTree.StoredMeansRoot | DriverCore/cache/radix-tree.c:167-170 | a tree that stores anything has a root, also after a failed insertion; an empty tidy one has none |
| RadixTrees.PreloadNotEnough | DriverCore/cache/radix-tree.c:113-141 | with memory for one preload the second insertion fails |
| RadixScans.ScanExact | DriverCore/cache/radix-tree.c:385-398 | the specification of a scan lists exactly the stored keys of its range, strictly ascending, the i-th at least i above the start |
| RadixScans.BlockAbsent | DriverCore/cache/radix-tree.c:351-355 | behind a null slot the whole block of keys is absent |
| RadixScans.SkipBlock | DriverCore/cache/radix-tree.c:353-354 | the index moves to the next block, past no stored key, also at the end of the key space |
| RadixScans.SkipSlot | DriverCore/cache/radix-tree.c:353-356 | the same on 64 bits: the index wraps to 0 exactly at the end of the key space |
| RadixScans.NextChild | DriverCore/cache/radix-tree.c:349-360 | finds the next child of a node and skips no stored key, or leaves the node, or wraps to 0 |
| RadixScans.DescendTo | DriverCore/cache/radix-tree.c:344-364 | reaches the bottom node of the next keys and skips no stored key |
| RadixScans.GrabItems | DriverCore/cache/radix-tree.c:366-374 | takes the items of a bottom node in key order until it is exhausted or the request is full |
| RadixScans.LookupFlat | DriverCore/cache/radix-tree.c:342-347 | a tree of height 0 holds at most key 0, which is the root pointer |
| RadixScans.LookupDeep | DriverCore/cache/radix-tree.c:344-383 | one round below a root node returns exactly the items between its two indexes |
| RadixScans.LookupRange | DriverCore/cache/radix-tree.c:332-383 | one round returns exactly the items between its index and the index to continue with, or faults exactly when the root is missing |
| RadixScans.GangLookup | DriverCore/cache/radix-tree.c:398-420 | terminates with exactly the first max_items items from first_index on, ascending, up to key 2^64 - 1, and leaves the rest of the results alone; faults exactly when max_items is positive, there is no root, and the height is positive and covers first_index |
| RadixScans.ScanAfterFailure | DriverCore/cache/radix-tree.c:338-349 | after a failed first insertion the scan faults |
| TreeLeaves.PackFacts | DriverCore/cache/cache.h:61-64 | the macros, `++` and `--` act on the count and the delete bit separately while the count has 31 bits |
| TreeLeaves.OneMoreReader | DriverCore/cache/cache.c:406 | one more reader is counted and the leaf stays unmarked if and only if the count is below 2^31 - 1; at that it becomes the delete mark |
| CacheModel.StepKeeps | DriverCore/cache/cache.c:371-637 | every step of every thread keeps the invariant of tree, list and leaves |
| CacheHistories.SafeReclamation | DriverCore/cache/cache.c:363-369 | over every interleaving a leaf is freed at most once, exactly when it left the tree and has no reader; until then the word is the count of holds and the mark |
| CacheHistories.TreeAndListAgree | DriverCore/cache/cache.c:604-616 | over every interleaving the list has exactly the leaves of the tree, each under its own block, and none of them is marked or freed |
| CacheHistories.LeavesAreStable | DriverCore/cache/cache.c:403 | a leaf never changes its block or its data, whatever happens while it is held |
| CacheHistories.HitsAreLatest | DriverCore/cache/cache.c:371-433 | the cached data of a block is that of its latest update not evicted or invalidated since |
| CacheHistories.ListIsByRecency | DriverCore/cache/cache.c:412-413 | the list is the cached leaves from the most to the least recently used |
| CacheBatches.HeldCanBePut | DriverCore/cache/cache.c:447-462 | whoever holds the leaves of a basket can give them back, and takes exactly these holds away |
| CacheBatches.EvictionFacts | DriverCore/cache/cache.c:520-541 | an eviction leaves in list and tree exactly the survivors of the list |
| CacheBatches.EvictsLeastRecent | DriverCore/cache/cache.c:520-541 | without a condition the survivors are the list without its n least recently used leaves |
| CacheBatches.EvictsUnspared | DriverCore/cache/cache.c:522-523 | without a limit the survivors are the leaves that the condition spares |
| CacheBatches.ListSize | DriverCore/cache/cache.c:611 | the list has as many leaves as the tree has keys |
| CacheBatches.StoreRangeFacts | DriverCore/cache/cache.c:595-632 | storing a range changes the answers for its blocks and no others |
| CacheBatches.RoomIsLru | DriverCore/cache/cache.c:584-593 | making room cuts the least recently used leaves off the list |
| CacheBatches.KickTakesWhatIsAsked | DriverCore/cache/cache.c:520-541 | an eviction takes the count least recently used leaves if and only if count is positive or the list is empty |
| CacheBatches.CapacityKept | DriverCore/cache/cache.c:584-632 | an update leaves at most max(cache_size, count) blocks |
| CacheFinds.ScatterHit | DriverCore/cache/cache.c:401-409 | moving an entry to the place of its block overwrites none that is still to be read |
| CacheFinds.ScatterMiss | DriverCore/cache/cache.c:415-418 | dropping an entry beyond the range loses no hit |
| CacheFinds.OffsetTells | DriverCore/cache/cache.c:400-401 | the test of the loop tells exactly the hits |
| CacheFinds.FindFacts | DriverCore/cache/cache.c:405-413 | a find adds one hold to each hit, moves the hits to the front in key order, and changes nothing else |
| CacheFinds.CanFind | DriverCore/cache/cache.c:405-407 | the hits can be held unless one has a full reader count |
| CacheFinds.FindServes | DriverCore/cache/cache.c:395-401 | a find answers for its whole range if and only if start + count < 2^64 or nothing is cached from start on |
| CacheFinds.LastBlockMissed | DriverCore/cache/cache.c:395-401 | the last block number is never found |
| CacheRuns.OpKeeps | DriverCore/cache/cache.c:371-637 | every operation keeps the invariant, and only an update can add blocks |
| CacheRuns.CapacityInvariant | DriverCore/cache/cache.c:584-593 | over every run of operations without an update larger than cache_size, cache_num is at most cache_size |
| CacheRuns.StoringKeys | DriverCore/cache/cache.c:595-632 | storing a range adds exactly its blocks to the cached ones |
| CacheRuns.UpdateFits | DriverCore/cache/cache.c:584-632 | a complete update leaves a cache within its size if and only if the update is no larger than that |
| CacheRuns.LargerUpdateOverfills | DriverCore/cache/cache.c:584-593 | after every run of operations without an update larger than cache_size, a complete update in new leaves is possible and exceeds cache_size if and only if it is larger than that |
| CacheReaders.OpKeepsReaders | DriverCore/cache/cache.c:469-637 | an update, invalidation or eviction keeps every leaf with its block, data and references |
| CacheReaders.FindTakes | DriverCore/cache/cache.c:395-413 | a find takes one reference for each time that a leaf is in its basket, and no other |
| CacheReaders.FoundIsHeld | DriverCore/cache/cache.c:395-413 | after a find its caller holds all leaves of the basket, as giving it back needs |
| CacheReaders.HeldStays | DriverCore/cache/cache.c:435-465 | who holds all leaves of a basket holds them still after any of these |
| CacheReaders.ReferencesBalance | DriverCore/cache/cache.c:371-465 | over every run of finds, updates, invalidations and evictions, with single returns interleaved anywhere, a leaf has as many references as it occurs in baskets |
| CacheReaders.BasketCanBePut | DriverCore/cache/cache.c:435-465 | so each entry of a basket, and a basket as a whole, can be given back at any time |
| CacheReaders.NothingLeaks | DriverCore/cache/cache.c:363-369 | a leaf is freed exactly when it is neither cached nor in a basket, so no leaf is lost |
| CacheMemories.LastThatFits | DriverCore/cache/cache.c:595-632 | numbers of blocks that there is memory for are those up to the last that fits |
| CacheEffects.RangeIs | DriverCore/cache/cache.c:601-608 | the blocks of a range are exactly those less than count behind start, on 64 bits |
| CacheEffects.RangeTaken | DriverCore/cache/cache.c:482-500 | taking out a range leaves exactly the cached blocks that are not less than count behind start, with their leaves |
| CacheEffects.InvalidateEffect | DriverCore/cache/cache.c:469-501 | what an invalidation does to every block and to the list, with the order of the list kept |
| CacheEffects.KickEffect | DriverCore/cache/cache.c:504-547 | from some list position on an eviction takes all leaves not spared; that position is 0 when it is asked for -1 or does not find as many as it is asked for, and else it has just taken the leaf there |
| CacheEffects.KickAll | DriverCore/cache/cache.c:517-539 | asked for -1, a block stays exactly if the condition spares its data |
| CacheEffects.PlacedAt | DriverCore/cache/cache.c:595-632 | every block after a range was stored: in leaf x with value x if it is x behind start, else as before |
| CacheEffects.PlacedList | DriverCore/cache/cache.c:604-616 | the stored leaves are in front of the list, the last first, and the others behind them in their old order |
| CacheEffects.RoomFacts | DriverCore/cache/cache.c:584-593 | making room takes exactly the least recently used leaves that are too many, and no more than cache_size |
| CacheEffects.UpdateRun | DriverCore/cache/cache.c:569-637 | what an update does to every block and to the list, from making room on |
| CacheEffects.FoundNow | DriverCore/cache/cache.c:371-433 | what a find does to the basket, to the references and to the list |
| CacheEffects.PutEffect | DriverCore/cache/cache.c:435-465 | what giving back a basket does to the references |
| MetaCache.Volume.constructor | DriverCore/cache/cache.c:163-181 | a new volume caches nothing |
| MetaCache.Volume.ReleaseLeaf | DriverCore/cache/cache.c:363-369 | its caller must show that the count is 0: the BUG_ON never fires |
| MetaCache.Volume.TouchLeaf | DriverCore/cache/cache.c:405-413 | a hit is the touch step of the machine |
| MetaCache.Volume.PutLeaf | DriverCore/cache/cache.c:450-460 | giving back one reference is the put step, which frees a marked leaf with its last reader |
| MetaCache.Volume.SettleLeaf | DriverCore/cache/cache.c:618-630 | a leaf out of the tree is marked if it has readers and freed if not |
| MetaCache.Volume.CachePut | DriverCore/cache/cache.c:435-465 | each leaf has one reference less for every place where it is in the basket; list and tree stay as they are |
| MetaCache.Volume.RetireBlock | DriverCore/cache/cache.c:482-496 | takes one block out of tree and list, and frees or marks its leaf |
| MetaCache.Volume.CacheInvalidate | DriverCore/cache/cache.c:469-501 | exactly the blocks less than count behind start, on 64 bits, are gone; the others keep their leaves, and the list is the old one without the leaves that went |
| MetaCache.Volume.KickLoop | DriverCore/cache/cache.c:520-541 | the eviction from the tail, up to its last leaf |
| MetaCache.Volume.Kick | DriverCore/cache/cache.c:504-547 | asked for -1, exactly the blocks that the condition spares stay, so without a condition the cache is empty; asked for n, the least recently used unspared leaves go, n of them (one if n is 0) or all; the others keep their order |
| MetaCache.Volume.StoreBlock | DriverCore/cache/cache.c:601-631 | one block is stored and the leaf it replaces settled, or nothing changes |
| MetaCache.Volume.StoreBlocks | DriverCore/cache/cache.c:595-636 | stores a prefix of the range, of a tidy tree as much as there is memory for, which then stays tidy if that is all; the result is 0 exactly when all was stored or memory for a leaf ran out after the first; when the tree has a root |
| MetaCache.Volume.MakeRoom | DriverCore/cache/cache.c:584-593 | exactly cache_num + count - cache_size least recently used leaves go, none if that is negative and at most cache_size, and no others |
| MetaCache.Volume.CacheUpdate | DriverCore/cache/cache.c:569-637 | value number x is stored under block start + x, on 64 bits, for as many as there is memory for leaves and nodes; every other block is as it was when room was made; the new leaves are in front of the list; the result for every outcome, when it is a success that is none, when the tree loses its root, and that it stays tidy |
| MetaCache.PartialUpdate | DriverCore/cache/cache.c:598-636 | an update of two blocks that stores one and returns 0 |
| MetaCache.Volume.Gather | DriverCore/cache/cache.c:384-394 | the basket holds the scanned leaves in key order and null behind them, unless the scan faults |
| MetaCache.Volume.ScatterOne | DriverCore/cache/cache.c:397-418 | one round of the in-place scatter |
| MetaCache.Volume.FindLoop | DriverCore/cache/cache.c:396-419 | the downward loop puts each hit in its place, holds it, and counts it |
| MetaCache.Volume.CacheFind | DriverCore/cache/cache.c:371-433 | basket[x] is the leaf of block start + x or null; the result is the number of cached blocks of the range; exactly the hits gained a hold, and are in front of the list in block order, the others behind them in their old order; or a fault, exactly when the root is missing and the scan has to look, with the cache unchanged |
| AllocationRanges.InWordFits | DriverCore/DIO.c:306-334 | what one 64-bit chunk tells: all blocks up to the length suit the operation, and the next does not unless the chunk or the range ended |
| AllocationRanges.RunIsLongest | DriverCore/DIO.c:268-294 | the bit-by-bit length is that of the longest run |
| AllocationRanges.RunIsUnique | DriverCore/DIO.c:268-294 | and no other length is |
| AllocationRanges.ContinuousRange | DriverCore/DIO.c:295-356 | the recursion by 64-bit chunks gives the bit-by-bit length, capped at nr_LBIDs |
| AllocationRanges.RangeFits | DriverCore/DIO.c:359-374 | the stretch has length at least 1, suits the reported operation, and cannot be extended |
| AllocationRanges.Pieces | DriverCore/DIO.c:484-531 | cutting a range this way tiles it with homogeneous stretches whose neighbours differ |
| AllocationRanges.TilesInOrder | DriverCore/DIO.c:484-531 | the stretches of a cut: the first starts at the range, each next one where the one before it ends, and the last ends with the range |
| AllocationRanges.FirstPiece | DriverCore/DIO.c:494-496 | the first stretch of any such cut is what the flags say |
| AllocationRanges.CutIsUnique | DriverCore/DIO.c:484-531 | there is only one such cut of a range |
| LinkedRings.ListAdd | DriverCore/LogicalBlockList.c:486 | list_add keeps a ring and inserts exactly there |
| LinkedRings.ListDel | DriverCore/LogicalBlockList.c:754 | list_del keeps a ring and removes exactly that element |
| BlockLists.FindPlace | DriverCore/LogicalBlockList.c:461-478 | the walk from the tail stops at the place for the id, or at the block with the id |
| BlockLists.PlaceTells | DriverCore/LogicalBlockList.c:466-470 | the id is in the list exactly if the walk stopped at it |
| BlockLists.AddSorted | DriverCore/LogicalBlockList.c:444-517 | the list stays strictly ascending and gains exactly this block, or has the id already and does not change |
| BlockLists.KeptIsAllButRun | DriverCore/LogicalBlockList.c:747-766 | the walk takes out exactly the run slbid, slbid + 1, ... that is in the list, up to nr_lbids |
| BlockLists.RangeRespected | DriverCore/LogicalBlockList.c:747-766 | only blocks of the range are taken out if and only if nr_lbids is positive or slbid is not listed |
| BlockLists.EmptyRangeTakesOne | DriverCore/LogicalBlockList.c:747-766 | a range of no block takes out the block where it starts |
| BlockLists.CommitRange | DriverCore/LogicalBlockList.c:733-781 | of a sorted list exactly the consecutive blocks slbid, slbid + 1, ... go, at most nr_lbids of them if that is positive; emptiness is reported |
| DioSplits.Splice | DriverCore/DIO.c:390-400 | the pointer surgery makes two rings of one |
| DioSplits.MoveSubList | DriverCore/DIO.c:377-408 | the first `length` elements move to the new list and the others stay, or nothing changes |
| DioSplits.DealtBlocks | DriverCore/DIO.c:498-508 | a list of exactly the blocks of the request gives each stretch exactly its own, ascending |
| DioSplits.DealtWhenEnough | DriverCore/DIO.c:431-435 | dealing succeeds exactly when the list is long enough for all stretches but the last |
| DioSplits.NextDio | DriverCore/DIO.c:494-530 | one round of the loop for a write |
| DioSplits.MakeDios | DriverCore/DIO.c:458-579 | a write becomes one DMS_IO for each stretch with its share of the list, a read one with all of it; a write fails exactly when the list has fewer blocks than there are before the last stretch |
| DioSplits.SplitRequest | DriverCore/DIO.c:458-579 | with a list of all blocks of the request splitting never fails; one behind the other the DMS_IOs make up the range, each is for new blocks only or old ones only, neighbours differ, and each owns a ring of exactly its blocks, ascending |
| DLists.IterationFollowsPlan | DriverCore/DList.c:131-629 | after a reset the nodes returned are exactly those not removed before their turn, once each and in list order, with those added at the tail before the end |
| DLists.MissOnPlan | DriverCore/DList.c:480-483 | a removal that finds nothing disturbs the iteration exactly when that is over and the list is not empty |
| DLists.MissRepeats | DriverCore/DList.c:480-483 | an input for which a node is returned twice |
| DLists.DList.constructor | DriverCore/DList.c:669-686 | an empty list with its iterator on the head |
| DLists.DList.ResetIterator | DriverCore/DList.c:185-204 | the iterator stands on the first node |
| DLists.DList.GetNext | DriverCore/DList.c:131-171 | returns the next node and goes on by one, or null at the end; the list does not change |
| DLists.DList.InsertHead | DriverCore/DList.c:344-347 | the list is the new node followed by the old list, and the iterator keeps its place |
| DLists.DList.InsertTail | DriverCore/DList.c:349-352 | the list is the old list followed by the new node, which an iterator that is at the end does not see |
| DLists.DList.Search | DriverCore/DList.c:528-544 | the first node that passes the check |
| DLists.DList.RemoveNode | DriverCore/DList.c:463-468 | the list is the old one without this node, and an iterator that stands on it moves on |
| DLists.DList.RemoveByData | DriverCore/DList.c:444-502 | the list is the old one without the first node with the data; if there is none, an iterator at the end is put back on the first node |
| DLists.DList.RemoveByCheck | DriverCore/DList.c:516-567 | the list is the old one without the first node that passes the check, or nothing changes |
| DLists.DList.RemoveHead | DriverCore/DList.c:582-629 | the list is the old one without its first node, if any |
| AckPolicies.PolicyFacts | DriverCore/Driver_Core.c:193-279 | for writes and reads: the counters are the missing answers; done is reported exactly with the last disk or read answer, and a commit is asked for exactly when one is due |
| AckPolicies.DoneIsDue | DriverCore/Driver_Core.c:138-140 | a located request that is done was due for the user |
| AckPolicies.DoneMeansZero | DriverCore/include/Metadata.h:265-268 | the disk counter is 0 exactly when every replica answered to disk or failed |
| AckPolicies.DiskNoteKept | DriverCore/Driver_Core.c:208-212 | a later memory answer leaves the note of a disk answer alone exactly when that is the plain one |
| AckPolicies.RecordIs | DriverCore/include/Datanode_Protocol.h:47-67 | which code (101 to 105) counts as a memory, disk or read answer and which as a failure |
| AckPolicies.MaySendIs | DriverCore/Driver_Core.c:183-190 | by its codes: a replica of a write sends each of memory and disk once, or fails before both; one of a read answers or fails once |
| AckRequests.CommitBlocks | DriverCore/DIO.c:605-611 | committing a located request takes exactly its range out of the waiting blocks |
| AckRequests.NothingWaits | DriverCore/DIO.c:613-621 | no block is left exactly when every located request is committed |
| AckRequests.AnswerKeeps | DriverCore/Driver_Core.c:290-341 | every answer keeps the invariant of its DMS_IO |
| AckRequests.AccountKeeps | DriverCore/Driver_Core.c:344-366 | subtracting the done located requests keeps it, and triggers the namenode commit when none is left |
| AckRuns.DeliverIs | DriverCore/IO_Request.c:233-277 | an answer that commits the last block of a DMS_IO removes it, and the last DMS_IO ends the request with its result |
| AckRuns.RunKeeps | DriverCore/Driver_Core.c:450-476 | the invariant holds after every sequence of answers |
| AckRuns.UserCommits | DriverCore/Driver_Core.c:183-190 | a located request is committed exactly when a replica has it on disk or all answered; the DMS_IO waits for exactly the blocks of the others and is gone exactly when there are none |
| AckRuns.EndedOnce | DriverCore/IO_Request.c:247-251 | the kernel request is ended at most once, exactly when every block of every DMS_IO is committed |
| AckRuns.NamenodeOnce | DriverCore/Driver_Core.c:344-366 | the namenode is told at most once, when every located request is done and accounted for, and after all user commits |
| AckRuns.StepStays | DriverCore/Driver_Core.c:61-90 | no step takes back a commit, touches a DMS_IO that is gone, or changes a result |
| AckRuns.HistoryStays | DriverCore/DIO.c:605-606 | so the first result is final over every run |
| AckRuns.DiskNoteStays | DriverCore/Driver_Core.c:208-212 | a plain disk answer, once noted, is never overwritten |
| AckRuns.SentIsRecorded | DriverCore/Driver_Core.c:193-279 | the recorded answers are those of the run |
| AckResults.DueIsCommitted | DriverCore/Driver_Core.c:183-190 | a located request is due by the answers of the run exactly when it is committed |
| AckResults.ResultsAre | DriverCore/DIO.c:605-619 | for every run: the result of each DMS_IO is the code of the answer that first made one of its located requests due, the kernel request has that of the DMS_IO complete first, and is ended with it once all are complete |
| AckResults.FailureDoesNotShow | DriverCore/DIO.c:605-619 | a request that is ended with the disk code although a replica failed |
| AckResults.EndedWhenHeard | DriverCore/Driver_Core.c:237-258 | when every replica has sent all it will, a write was ended, and a read if and only if no located request failed at all its replicas |
| AckResults.LostStays | DriverCore/Driver_Core.c:247-250 | a located request that all replicas failed to read keeps its kernel request from being ended, over every continuation |
| AckResults.LostReadHangs | DriverCore/Driver_Core.c:247-250 | a read that was heard completely and is not ended |
| AckAnswers.ToldAll | DriverCore/Driver_Core.c:304-338 | one answer reaches each located request that it covers, at its replica, and no other; codes already committed stay the results |
| AckAnswers.PartOkFollows | DriverCore/Driver_Core.c:183-279 | counters, commits, waiting blocks, the pointer and the namenode commit of a DMS_IO, each told by what its replicas sent |
| AckObjects.LocatedRequest.UpdatePolicy | DriverCore/Driver_Core.c:193-279 | a table by codes: a memory answer lowers the memory counter only and asks for the user commit exactly at 0; a disk or read answer lowers the disk counter only and reports done exactly at 0; a failure of a write lowers both, one of a read and any other code none; the note is written at this replica alone, unless WDISK_ACK stands there |
| AckObjects.DmsIo.CommitRangeOfBlocks | DriverCore/DIO.c:593-625 | the ring of the DMS_IO loses the committed range, its result is set once, and emptiness is reported |
| AckObjects.Metadata.UpdateWaiting | DriverCore/Driver_Core.c:344-366 | the loop reports the namenode commit exactly when the counter passes through 0 |
| AckObjects.NewBlocks | DriverCore/LogicalBlockList.c:444-517 | blocks added one by one in ascending order make a ring of exactly these |
| AckDrivers.Attached | DriverCore/Driver_Core.c:66-83 | a commit never follows a cleared pdio |
| AckDrivers.KernelIo.AllFollow | DriverCore/Driver_Core.c:450-476 | between two answers all objects of the request follow from what was sent: counters, commits, rings, pointers, the list of DMS_IOs, result and end |
| AckDrivers.KernelIo.constructor | DriverCore/IO_Request.c:324-353 | a kernel request without DMS_IOs, all of whose objects are new |
| AckDrivers.QueuedWithout | DriverCore/IO_Request.c:134-159 | the numbers still listed when a DMS_IO leaves are the others, in order |
| AckDrivers.KernelIo.AddDio | DriverCore/IO_Request.c:83-101 | a DMS_IO with new metadata, located requests and a ring of its blocks joins the tail of the list; the objects show the request with one more part, and are disjoint from the others |
| AckDrivers.KernelIo.CountAnswer | DriverCore/Driver_Core.c:193-279 | one object changes as the policy says, the objects of the other DMS_IOs do not |
| AckDrivers.KernelIo.RemoveDio | DriverCore/IO_Request.c:134-159 | exactly this DMS_IO leaves the list, which is found empty exactly when none is attached |
| AckDrivers.KernelIo.CommitDioToIoRequest | DriverCore/IO_Request.c:233-277 | result, list and end of the request: the DMS_IO leaves the list on the heap, and the list found empty ends the request |
| AckDrivers.KernelIo.CommitLbsToDmsIo | DriverCore/Driver_Core.c:61-90 | the first commit of a located request empties its range out of the ring; a ring found empty takes the DMS_IO out of the list and clears the pointer, which no commit follows later |
| AckDrivers.KernelIo.AnswerOne | DriverCore/Driver_Core.c:313-338 | one located request of an answer: counters, ring, list and pointer end up as the protocol on values says, also for all other DMS_IOs |
| AckDrivers.KernelIo.HandleTag | DriverCore/Driver_Core.c:290-341 | what was sent to each located request grows by exactly the replicas of the tags that name it, in the set that the code calls for; nothing else was sent; and the number of those done now |
| AckDrivers.KernelIo.SettleAnswer | DriverCore/Driver_Core.c:461-471 | the namenode commit is counted exactly when it is triggered |
| AckDrivers.KernelIo.VolumeIoCommitter | DriverCore/Driver_Core.c:450-476 | for writes and reads: every located request that the answer covers has it and no other has; all objects follow from what was sent, and the results from the first codes that committed; the code asks for the namenode commit exactly when that is counted |
| NetBytes.ReadBack | DriverCore/include/DMS_Protocol_Header.h:26-30 | reading a number in network byte order gives back what was written |
| NetBytes.MessageBack | DriverCore/include/DMS_Protocol_Header.h:26-30 | memory that holds the bytes of a message reads as its numbers |
| NetBytes.BufferReads | DriverCore/include/DMS_Protocol_Header.h:26-30 | the macros byte by byte: first byte most significant, with the sign of the field that takes the number |
| NetBytes.BufferReadsLong | DriverCore/include/DMS_Protocol_Header.h:30 | the same for eight bytes |
| MetadataResponses.ParseDatanodeLocation | DriverCore/Namenode_Protocol.c:149-170 | address at 0, port at 4, count at 6, triplets from 10 on; the next location is behind them |
| MetadataResponses.ParseDatanodeLocations | DriverCore/Namenode_Protocol.c:133-186 | the locations stand one behind the other from the offset on; the result is the bytes they take |
| MetadataResponses.ParseLocatedRequest | DriverCore/Namenode_Protocol.c:189-236 | state at 0, number of hbids at 2, hbids from 4 on, then the number of locations and these; the result is its bytes, or 0 without locations |
| MetadataResponses.ParseLocatedRequests | DriverCore/Namenode_Protocol.c:239-287 | all located requests, numbered from the start block on, up to the first without locations |
| MetadataResponses.ParseMetadataResponse | DriverCore/Namenode_Protocol.c:290-333 | the header fields at 0, 8, 16, 18 and 26; from 28 on the located requests one behind the other, each starting as many blocks on as the one before has hbids, in a short, up to the announced number or the first without locations; the result is exactly the bytes consumed, or 0 |
| MetadataResponses.LocatedPlaces | DriverCore/Namenode_Protocol.c:239-287 | where each located request and each location begins, and at which block |
| MetadataRoundTrips.ResponseUnique | DriverCore/Namenode_Protocol.c:290-333 | a buffer determines the response |
| MetadataRoundTrips.ResponseBack | DriverCore/Namenode_Protocol.c:290-333 | the bytes of a response read as its located requests up to the first without locations |
| MetadataRoundTrips.ParsesBack | DriverCore/Namenode_Protocol.c:290-333 | the round trip: the response and its number of bytes come back if and only if it has located requests and each has a location |
| MetadataRoundTrips.Tiling | DriverCore/Namenode_Protocol.c:252-264 | each located request starts where those before it end if and only if the blocks before it fit a short and lead to a block number |
| MetadataRoundTrips.TilingOfCounts | DriverCore/Namenode_Protocol.c:252-264 | with counts that are not negative, the located requests tile the range if and only if the blocks of all but the last fit a short |

## Left out

- Locks, atomics and kernel threads: the steps of `CacheModel` and `AckRuns` are atomic as the locks make them; that the locks are taken where they should be is not part of the model.
- The volume hash table, cache statistics, the payload cache (compiled out) and the preload pool of the radix tree (a preload counts as memory for 12 nodes).
- The release of memory other than tree nodes and leaves, and the release of what was already built when a split fails.
- `Commit_Datanode_Tags`, the datanode tags of the metadata, and sending to the namenode: a datanode answer is given as the located requests it covers.
- Printing of responses: the repository's pack functions do not match its parser, so the printer in `MetadataRoundTrip` follows the field order of the parser.
- Array bounds of the parsed structures (`HBIDs`, `triplets`): the parser does not check them against the counts in the message, and the model has sequences of any length.
- `compose_triple` and `decompose_triple`, volumes, ioctls, sockets, the payload manager and the user daemon.
- MetaCache.Volume.CacheFind: requires that no hit has a full reader count, which the code relies on without a test; `OneMoreReader` says what happens otherwise.
- MetaCache.Volume.CacheUpdate: requires that the room to make fits a C int, as the code computes it in one.
- AllocationRanges.ContinuousRange: for ranges below 2^31 - 64 blocks, beyond which the C int overflows.
