# A verified model of the collector

A Dafny model of a conservative mark-and-sweep garbage collector for C programs
with its two allocators, its marker, its sweeper and its stop-the-world
protocol, together with proofs of what they promise.

## What is modelled

**Large objects** (`allocator/treap.c`, `allocator/binary-search-tree.c`,
`allocator/large-allocator.c`).  The free space is a treap: a search tree by
address that is also a heap by block size, in which touching blocks are fused on
insertion.  The live blocks are a search tree by address.  Nodes come from a
fixed pool.  `BlockTrees` states every tree operation as a function on tree
values that carry the identity of their nodes, `TreapLaws`, `SearchLaws` and
`SweepLaws` prove what these functions do, and `LargeRuns` and `LargeShape` prove
what holds over every run of allocations and sweeps: the two trees tile the heap,
the free blocks are exactly the maximal free runs, allocation is complete although
it looks only at the root.  `TreeHeap` and `LargeHeap` are the operations on the
nodes themselves, changed in place, and each is proved to compute the function;
`TreeCells` and `StaleChildren` follow `merge_treap` where the pointers do not form
trees.

**Small objects** (`allocator/small-allocator.c`, `allocator/bitmap.c`,
`sweep_small_heap`).  `SmallMachine` and `SmallRuns` are the allocator as a machine
whose steps any number of threads interleave: a cache lookup, a list pop, one
round of the scan, one stored slider.  The invariant keeps a frontier for every
block; below it all slots are in use, from it on the mark bits and the slots in
use are the same, the partial slot at the end of a block included.  A failed scan
moves the frontier and not the slider, which is harmless because it retires the
block.  `Bitmap` refines sets of slots to bytes, and `SmallHeap` is the allocator on sliders, headers, linked lists and caches, one
thread at a time: every call is proved to be a run of the machine.

**Marking** (`marker/`, `allocator/object.c`).  `Objects` resolves addresses over
both heaps, `Reachability` says what a path of pointers is, and `Marking` is the
worklist over `MarkStack` with the tri-colour invariant.  `Collector` puts the
handlers' clearing of caches, marking and the two sweeps together, from any marks:
afterwards the objects in use are exactly those that were marked and those
reachable around them, and from clear marks exactly the reachable ones.  What a
collection leaves is what the next one asks for.  `Survival` says what that means
to a program holding interior pointers, and what stale marks do.  `Allocations` says
what one request does to both heaps, and `GcMalloc` puts attempt, collection and
second attempt together.

**The handshake** (`gc.c`, `mt-safety/`, the lock in `allocator/allocator.c`).
`Handshake` is a state machine over any number of threads and the service thread;
one step is one operation on a lock, a barrier or a flag, or one signal.
`Attempts` counts what one call does among the others, and `StopProgress` says when
a stop of the world can be completed.
`ThreadsStorage` is the linked list of registered threads.

## Where the code departs from its intent

The code is modelled as written.  Where it does not do what it is for, a flag
selects a repair, and the exact condition under which the repair makes no
difference is proved, in terms of the state before the call.  `LargeWitnesses` and
`SmallWitnesses` give runs that reach the failing states, none of which needs a
repair on the way.

- `remove_treap` leaves the removed node its children (`allocator/treap.c:112-115`)
  and `allocate_large_object` files it as a leaf.  `AllocateLargeObject(size, detach)`
  clears them when `detach` holds.  As written the call leaves the allocator in
  order exactly when the free root is too small or has no children.  Otherwise no
  state in order is laid out at all: the node filed as occupied leads into the free
  treap, or, when the node pool is empty and the root goes back, the free
  structure goes round in circles.  `StaleRootIsReached` is a run to the second case.
- `remove_bst` hands out the block of the in-order successor in place of the
  deleted one when the node has two children
  (`allocator/binary-search-tree.c:59-73`): exactly then (`RemovedBlock`).  In the
  sweep the successor is a live block, so the sweep as written **frees a live
  block** and loses the dead one, once for each dead block that lies between live
  blocks on both sides within its subtree (`Straddled`).  `CleanupAsWritten` says
  which bytes become free, to the byte.  Each of these happens exactly when some
  dead block is straddled: a dead byte is lost, a live byte is freed, the heap is
  no longer tiled.  The
  occupied tree itself is right, and the free treap stays in order.
  `StraddledIsReached` is a run.
- `mark` relies on all marks being clear when it starts.  From any marks `m0` it
  marks exactly `m0` and what the roots reach along paths around `m0`; which
  reachable objects are missed is `MarkingCompleteIff`.
  `fill_all_bitmaps_with_zeros` establishes the precondition exactly when no
  block owned by a thread has a mark left and no used-up block has its partial slot
  marked (`FillClearsAllIff`), and is not called at all when the large allocator
  fails.  `FillLeavesMark` and `FillLeavesTail` are runs in which a mark stays, and
  in `StaleMarkHidesObject` the next collection then misses an object.
- Once `allocate_small_object` has returned NULL the bitmaps say nothing until the
  next mark and sweep: clearing them keeps the invariant exactly when no block on
  a segregated list has a mark (`FillKeepsInvIff`; `FillBreaksInv` is a run).  Runs
  of the allocator are stated up to that point.
- The handler tests `is_world_started` some time after the barrier
  (`mt-safety/stop-the-world.c:25-29`).  A thread that has not done so when the next
  stop clears the flag waits for a broadcast that only comes after it has
  reached the new barrier: the stop, and with it every allocation, **hangs for
  ever** (`DoomedForever`).  A stop that is about to clear the flag can be completed
  exactly when no thread is still in that place (`NextStopCompletesIff`);
  `EndlessStopIsReached` is a run of two threads into such a stop.  No wake-up is lost
  otherwise (`NoWakeUpIsLost`).
- A stop waits on a condition variable with `if`, and `destroy_cell` is not
  ordered with a stop.  The steps assume that a wait ends only by the broadcast
  and that no thread exits during a stop.
- When the aligned size does not divide the 4016 bytes of a block, an address in
  the remaining tail, such as the one just past the last object, resolves to a
  partial slot (`TailResolves`).  Marking, sweeping and a whole collection are exact
  even so: the partial slot is marked and kept like any other object.  What goes
  wrong is that scanning it reads beyond its block: exactly then (`WholeIff`), and
  some reachable object is scanned like that exactly when a root or a word of a
  reachable object points into a tail (`NoTailsIff`).
- `marker/stack.h` gives the stack 16 words to begin with; the 10 in
  `marker/marking.c:16` is not what `create_stack` uses.

## Model

| member | source | states |
|---|---|---|
| TreapLaws.SplitSpaced | allocator/treap.c:42-52 | splitting a treap of spaced blocks at an address nothing straddles leaves both halves in order, one before and one behind it |
| TreapLaws.SplitKeepsHeap | allocator/treap.c:42-52 | both halves are heaps by size and no larger at the root than the whole |
| TreapLaws.MergeSpaced | allocator/treap.c:54-64 | merging two treaps in address order gives a treap in address order |
| TreapLaws.MergeKeepsHeap | allocator/treap.c:54-64 | the result is a heap and its root is the larger of the two roots |
| TreapLaws.RootIsLargest | allocator/treap.c:34-40 | no block of a heap is larger than its root, so that looking at the root suffices |
| TreapLaws.RemoveRightmost | allocator/binary-search-tree.c:37-80 | the BST routine, used on a treap, takes out the rightmost node with its own block and drops just it |
| TreapLaws.RemoveLeftmost | allocator/binary-search-tree.c:37-80 | the same for the leftmost node |
| TreapLaws.FuseLeftLaws | allocator/treap.c:84-92 | after fusing with a touching left neighbour the rest is a free treap that ends short of the enlarged block |
| TreapLaws.FuseRightLaws | allocator/treap.c:94-101 | the same on the right |
| TreapLaws.InsertTreapKeepsOrder | allocator/treap.c:78-104 | inserting a leaf disjoint from a free treap gives a free treap: address order, heap order, no two blocks touching |
| TreapLaws.InsertTreapCovers | allocator/treap.c:78-104 | it covers exactly the old bytes and the new block's |
| TreapLaws.InsertTreapAlone | allocator/treap.c:78-104 | without touching neighbours it adds just that block and frees no node |
| SearchLaws.InsertBstSpaced | allocator/binary-search-tree.c:4-13 | inserting a block disjoint from all others keeps the occupied tree ordered |
| SearchLaws.InsertBstHolds | allocator/binary-search-tree.c:4-13 | the tree holds one node more, the blocks and bytes it held and the new ones |
| SearchLaws.SearchFindsStart | allocator/binary-search-tree.c:15-24 | `search_bst` finds a block if and only if it is in the tree and starts at the address |
| SearchLaws.ExtSearchFindsHolder | allocator/binary-search-tree.c:26-35 | `ext_search_bst` finds a block if and only if it is in the tree and holds the address, like a search of all blocks |
| SearchLaws.RemoveBstSpaced | allocator/binary-search-tree.c:37-80 | removal keeps the tree ordered, with or without the repair |
| SearchLaws.RemoveBstRemoves | allocator/binary-search-tree.c:37-80 | exactly the block at the address leaves the tree |
| SearchLaws.RemovedBlock | allocator/binary-search-tree.c:59-73 | the node handed out holds the deleted block if and only if the node had not two children; otherwise it holds the next block by address, which is still in the tree |
| SearchLaws.RemoveBstNodes | allocator/binary-search-tree.c:37-80 | exactly one node leaves, and it is the one handed out |
| SearchLaws.InsertTreapNodes | allocator/treap.c:78-104 | the new node joins, the nodes freed by fusing leave, none is lost or doubled |
| SweepLaws.CleanupKeepsSurvivors | allocator/binary-search-tree.c:82-99 | the swept occupied tree is ordered and holds exactly the marked blocks, marks cleared, with and without the repair |
| SweepLaws.CleanupFreesDead | allocator/binary-search-tree.c:82-99 | with the repair the free structure stays a free treap and gains exactly the bytes of the unmarked blocks |
| SweepLaws.AsWrittenAgrees | allocator/binary-search-tree.c:82-99 | as written the sweep is the same as repaired when no dead block has live blocks on both sides below it |
| SweepLaws.CleanupAsWritten | allocator/binary-search-tree.c:67-98 | as written the free treap stays in order and coalesced, and a byte is free afterwards if and only if it was, or was dead and not in a straddled block, or lies in the first live block behind a straddled one |
| SweepLaws.FreedIsLive | allocator/binary-search-tree.c:67-73 | what is freed behind a straddled block is live and never the first live block of the tree, so no block is freed twice |
| SweepLaws.LeftmostIsFirstLive | allocator/binary-search-tree.c:60-67 | the successor found during the walk is the live block with the least address in the right subtree |
| SweepLaws.AsWrittenFreesLiveIff | allocator/binary-search-tree.c:67-98 | as written some byte of a live block is both occupied and free afterwards if and only if some dead block is straddled |
| SweepLaws.AsWrittenReclaimsIff | allocator/binary-search-tree.c:67-98 | as written every dead byte is reclaimed if and only if no dead block is straddled by survivors |
| SweepLaws.CleanupKeepsNodes | allocator/large-allocator.c:24-44 | the nodes of both trees and the pool are conserved by a sweep and stay apart |
| LargeRuns.AllocateKeepsInv | allocator/large-allocator.c:106-149 | one allocation keeps the heap tiled by disjoint positive aligned blocks, the order, the heap order and the conservation of nodes |
| LargeRuns.AllocateComplete | allocator/large-allocator.c:106-135 | allocation fails if and only if no free block anywhere is large enough, or the fit is inexact and the pool empty; a failure leaves the set of free blocks |
| LargeRuns.AllocateTakesLargest | allocator/large-allocator.c:114-123 | what is handed out is cut from the front of a largest free block |
| LargeRuns.AllocateGivesFreeBytes | allocator/large-allocator.c:121-148 | a success moves exactly the returned, word-aligned, formerly free extent from free to occupied |
| LargeRuns.SweepKeepsInv | sweeper/sweep.c:56-63 | a sweep keeps all of the invariant and the marked blocks exactly |
| LargeRuns.SweepKeepsInvIff | sweeper/sweep.c:56-63 | a sweep as written keeps it if and only if no dead block is straddled; the nodes are conserved in any case |
| LargeRuns.RunKeepsInv | allocator/large-allocator.c:106-149 | every run of allocations, markings and sweeps keeps the invariant |
| LargeRuns.EveryRunTiles | allocator/large-allocator.c:84-92 | so every run from the initial single free block tiles the heap exactly |
| LargeShape.FreeBlocksAreMaximalRuns | allocator/treap.c:84-101 | a block is in the free treap if and only if it is a maximal run of free bytes |
| LargeShape.SameBytesSameBlocks | allocator/treap.c:84-101 | the set of free blocks is determined by the free bytes alone, whatever the history |
| LargeShape.SweepOfGarbageRestoresHeap | sweeper/sweep.c:56-63 | sweeping a heap without survivors gives back the single initial block |
| LargeShape.FragmentationBound | allocator/large-allocator.h:8 | free blocks number at most the occupied ones plus one, and an empty pool means twice the occupied count plus one reaches the node count |
| LargeWitnesses.StraddledIsReached | allocator/binary-search-tree.c:59-73 | a run of allocations, marks and one sweep, none touched by a repair, ends with a straddled dead block |
| LargeWitnesses.StaleRootIsReached | allocator/large-allocator.c:122-135 | such a run ends with a free root that has a child, is larger than the next request and meets an empty pool |
| TreeCells.MergeLaid | allocator/treap.c:54-64 | followed pointer by pointer on trees, the merge lays out the merged tree and writes to no other node |
| TreeCells.MergeReturns | allocator/treap.c:54-64 | the merge returns from any two trees, even when they share nodes |
| StaleChildren.SplitUndoesMerge | allocator/treap.c:42-64 | splitting at an address between two treaps undoes their merge, node for node |
| StaleChildren.SelfMergeIsEndless | allocator/treap.c:54-64 | a node merged with itself becomes part of a walk of left pointers that never ends |
| StaleChildren.NoNeighbour | allocator/treap.c:84-101 | the two neighbour searches find nothing that touches the removed root of a free treap |
| StaleChildren.ReinsertedIsTreeIff | allocator/large-allocator.c:122-135 | removing the root of any free treap and inserting it again as written returns, and leaves a tree if and only if the root had no children |
| StaleChildren.JoinedIsStuck | allocator/treap.c:103 | merging a node with the very subtrees that still are its children leaves pointers that go round among these nodes |
| StaleChildren.BrokenIsNoTree | allocator/treap.c:103 | no tree of any shape is laid out by such pointers |
| TreeHeap.SplitTreap | allocator/treap.c:42-52 | the in-place split lays out the two halves of the tree value |
| TreeHeap.MergeTreap | allocator/treap.c:54-64 | in place, from any pointers, it computes what the merge on cells computes |
| TreeHeap.MergeTrees | allocator/treap.c:54-64 | on two trees it returns and lays out the merged tree value |
| TreeHeap.RemoveFromTreap | allocator/treap.c:106-123 | the in-place removal lays out the rest and leaves the removed node its old children |
| TreeHeap.InsertIntoBst | allocator/binary-search-tree.c:4-13 | the in-place insertion lays out the larger tree, apart from whatever the new node carries below it |
| TreeHeap.SearchNode | allocator/binary-search-tree.c:15-24 | the node found is the one of the tree value |
| TreeHeap.ExtSearchNode | allocator/binary-search-tree.c:26-35 | the node found is the one of the tree value |
| TreeHeap.RemoveFromBst | allocator/binary-search-tree.c:37-80 | the in-place removal lays out the rest, and the node handed out is a leaf holding the stated block |
| LargeHeap.LargeAllocator.constructor | allocator/large-allocator.c:46-92 | the node pool and the single free block |
| LargeHeap.LargeAllocator.GetNewTreeNode | allocator/large-allocator.c:24-33 | NULL on an empty pool, else its head, as an unmarked leaf |
| LargeHeap.LargeAllocator.FreeTreeNode | allocator/large-allocator.c:35-44 | the node heads the pool |
| LargeHeap.LargeAllocator.InsertIntoTreap | allocator/treap.c:78-104 | splitting, fusing on both sides and merging in place lay out the inserted treap and extend the pool by the freed nodes when the node is a leaf; when it still has its old children, the halves it is merged with, the pointers go round in circles |
| LargeRuns.ChildrenStayFree | allocator/large-allocator.c:121-143 | after an allocation the nodes that lay below the old root are in the free treap |
| LargeHeap.LargeAllocator.MisfiledHoldsNothing | allocator/large-allocator.c:126-142 | with a node filed as occupied that leads into the free treap, the pointers lay out no state that is in order |
| LargeHeap.LargeAllocator.AllocateLargeObject | allocator/large-allocator.c:106-149 | the new state and result are those of the specification, and as written the allocator is in order afterwards if and only if the free root was too small or childless; otherwise the pointers lay out no state that is in order |
| LargeHeap.LargeAllocator.CleanupBst | allocator/binary-search-tree.c:82-99 | the post-order walk over nodes computes the sweep of the tree values |
| LargeHeap.LargeAllocator.SweepLargeHeap | sweeper/sweep.c:56-63 | the sweep in place; the allocator is valid afterwards if and only if repaired or nothing is straddled |
| LargeHeap.LargeAllocator.MarkLarge | allocator/object.c:76-82 | setting a mark sets that block's mark and nothing else |
| SmallRuns.StepKeeps | allocator/small-allocator.c:126-218 | every step of every thread keeps the invariant: lists, caches, retired blocks, sliders, bitmaps and slots in use |
| SmallRuns.SweepEstablishes | sweeper/sweep.c:10-54 | a sweep establishes it with the marked slots in use, whatever blocks the caches of any number of threads held |
| SmallRuns.ExclusiveBlocks | allocator/small-allocator.c:126-149 | no two threads ever work on the same block, so none advances another's slider |
| SmallRuns.HandedIsNew | allocator/small-allocator.c:203-217 | a step hands out only a whole slot that was not in use, and exactly that becomes used |
| SmallRuns.RunHandsOutFreshSlots | allocator/small-allocator.c:151-218 | over any interleaved run no slot is handed out that survived the sweep, and none twice |
| SmallRuns.SizeIsKept | allocator/small-allocator.c:90-106 | over any run a block with a slot in use keeps its size |
| SmallRuns.RanGivesFresh | allocator/small-allocator.c:151-218 | the slot one thread's run ends with shares no byte with any slot that was in use when the run began, and no block in use has changed its size |
| SmallRuns.NullKeepsSizes | allocator/small-allocator.c:162-177 | a run that comes to a NULL has taken no empty block and changed no block's size |
| SmallRuns.SlotInBlock | allocator/small-allocator.h:6-11 | a slot lies wholly inside the object area of its block |
| SmallRuns.SlotAligned | allocator/allocator.h:5-6 | slots of a word-aligned heap are word-aligned |
| SmallRuns.StartsInBlock | allocator/object.c:47-69 | the slots that begin in a block are the whole ones and at most one partial one |
| SmallRuns.UsedIsSlot | allocator/small-allocator.c:183-194 | a slot in use begins inside its block, and one that is handed out or passed by the slider is whole |
| SmallRuns.UsedSlotsDisjoint | allocator/small-allocator.c:151-218 | two different slots in use share no byte, whatever their sizes and blocks, partial survivors included |
| SmallRuns.NullMeansExhausted | allocator/small-allocator.c:162-177 | a NULL means every slot of that size is in use or lies in a block another thread owns |
| SmallRuns.SingleMutatorNull | allocator/small-allocator.c:162-177 | with one mutator a NULL means the empty list is empty and every slot of that size, cached and retired blocks included, is in use |
| SmallRuns.NullMeansHandedOut | allocator/small-allocator.c:162-177 | over every run of one mutator from a sweep to its first NULL, every whole slot of every block of that size survived the sweep or was handed out in the run |
| SmallRuns.InvMarksOk | sweeper/sweep.c:20-49 | marks left by any run, and by the fill after it, are marks the next sweep can read |
| SmallRuns.FillLeaves | allocator/small-allocator.c:108-124 | of the marks exactly those of blocks some thread has, and of partial slots of used-up blocks, remain |
| SmallRuns.FillClearsAllIff | allocator/small-allocator.c:108-124 | all marks are clear afterwards if and only if no block a thread has carries one and no used-up block has its partial slot marked |
| SmallRuns.FillKeepsInvIff | allocator/small-allocator.c:169-172 | the allocator may go on after it if and only if no block on a segregated list has a mark |
| SmallWitnesses.FillBreaksInv | allocator/small-allocator.c:169-172 | a request fails while a block of another size with a survivor is listed, and the fill breaks the invariant |
| SmallWitnesses.FillLeavesMark | allocator/small-allocator.c:108-124 | a request fails while a block with a survivor ahead of its slider is cached, and that mark stays |
| SmallWitnesses.FillLeavesTail | allocator/small-allocator.c:108-124 | a block whose partial slot is marked is used up by its thread, and that mark stays although no thread has the block |
| Bitmap.AddressOfSlot | allocator/bitmap.c:8-19 | every address inside a slot, whole or partial, leads back to its block and its slot index |
| Bitmap.IndexFits | allocator/small-allocator.h:6-11 | every index, of a partial slot too, fits in the 64 bytes |
| Bitmap.FitsIff | allocator/small-allocator.c:183-184 | the loop test of the scan holds exactly for the whole slots |
| Bitmap.FlipBit | allocator/bitmap.c:44-47 | the exclusive-or changes the reading of one bit and of no other |
| Bitmap.ZeroBytesNoMarks | allocator/bitmap.c:50-62 | the bytes of a block are all zero if and only if no slot of it is marked |
| Bitmap.WordZero | allocator/bitmap.c:54-58 | a word is zero if and only if each of its bytes is |
| Bitmap.Bitmaps.Get | allocator/bitmap.c:8-26 | reads membership of the slot in the set |
| Bitmap.Bitmaps.Set | allocator/bitmap.c:28-48 | adds or removes that slot; every other slot of the heap reads as before |
| Bitmap.Bitmaps.IsEmpty | allocator/bitmap.c:50-62 | true if and only if no slot of the block is in the set |
| Bitmap.Bitmaps.Clear | allocator/small-allocator.c:90-106 | removes the block's slots and no others |
| SmallHeap.SmallAllocator.constructor | allocator/small-allocator.c:46-76 | all blocks on the empty list in address order, nothing in use |
| SmallHeap.SmallAllocator.GetBlockFromSegregList | allocator/small-allocator.c:141-149 | pops a block of that size, or NULL if there is none |
| SmallHeap.SmallAllocator.NewBlock | allocator/small-allocator.c:126-139 | takes the head of the empty list and initialises its header, or NULL if there is none |
| SmallHeap.SmallAllocator.Scan | allocator/small-allocator.c:179-202 | the scan loop terminates at the first clear bit or drops the block, as a run of the machine that hands out nothing |
| SmallHeap.SmallAllocator.FindBlock | allocator/small-allocator.c:155-202 | the search from the cache over the lists to an empty block terminates and is a run of the machine that hands out nothing |
| SmallHeap.SmallAllocator.AllocateSmallObject | allocator/small-allocator.c:151-218 | terminates; the call is a run of the machine whose one output is the slot returned, which shares no byte with a slot in use before, or a run to a NULL followed by the fill, when the empty list is empty and every whole slot of the size is in use; blocks in use keep their size; the marks a NULL leaves are in cached blocks or on partial slots of used-up ones, and can be swept |
| SmallHeap.SmallAllocator.FillAllBitmapsWithZeros | allocator/small-allocator.c:108-124 | walks the segregated lists only; the marks left are those of the specification |
| SmallHeap.SmallAllocator.ClearCache | allocator/small-allocator.c:26-30 | the cached blocks are retired |
| SmallHeap.SmallAllocator.SweepSmallHeap | sweeper/sweep.c:10-54 | acyclic lists partition the blocks: a block is on the list of its size if and only if it has a mark, on the empty list otherwise, every slider at the first slot |
| MarkStack.Stack.Push | marker/stack.c:26-31 | appends, doubling the array when full |
| MarkStack.Stack.Pop | marker/stack.c:33-38 | takes back the last value pushed |
| MarkStack.Stack.Resize | marker/stack.c:17-24 | doubles the capacity and keeps the contents |
| Objects.ResolvesToStart | allocator/object.c:36-72 | what an address resolves to resolves to itself and its extent holds the address |
| Objects.LargeInterior | allocator/object.c:37-45 | every address inside an occupied block resolves to its start |
| Objects.SmallInterior | allocator/object.c:47-69 | every address inside a slot of a block in use, whole or partial, resolves to the slot's start |
| Objects.InsideItsSlot | allocator/object.c:47-69 | and what resolves to the start of a slot lies in that slot |
| Objects.SlotIsObjectIff | allocator/object.c:47-69 | a slot of an initialised block is an object if and only if it begins in the block |
| Objects.WholeIff | marker/marking.c:48-50 | the words scanned of a small object lie in its block if and only if it is a whole slot |
| Objects.SmallExtent | allocator/object.c:12-34 | the addresses that resolve to a small object are the bytes of its size, up to the end of its block |
| Objects.ObjectExtent | allocator/object.c:12-34 | an address is among the bytes the size of a whole object counts if and only if it resolves to that object |
| Objects.MarkSmall | allocator/object.c:83-86 | setting the bit of an object marks that object and no other of either heap |
| Objects.MarkLarge | allocator/object.c:76-82 | setting a flag marks that object and no other, and changes how no address resolves |
| Objects.SurvivorsAreMarked | allocator/object.c:93-108 | the blocks a sweep keeps are exactly those whose address reads as marked |
| Reachability.EdgeIsPointer | marker/marking.c:48-54 | a whole object points to another if and only if some word at a multiple of eight bytes inside it resolves there |
| Reachability.ClosedHoldsPath | marker/marking.c:58-64 | a set closed under pointers and holding the roots holds the end of every path |
| Reachability.ReachableIsObject | allocator/object.c:36-72 | only objects are reachable |
| Marking.ScanKeepsTricolour | marker/marking.c:43-56 | scanning a popped object keeps the tri-colour invariant, pushes each new object once, and lessens the unmarked objects if it pushes at all |
| Marking.RootKeepsTricolour | marker/marking.c:89-94 | a root word keeps the invariant with one root more |
| Marking.ClosedIsReachable | marker/marking.c:58-64 | with an empty stack the marked objects are exactly the old ones and those reachable around them |
| Marking.Marker.GetObjectAt | allocator/object.c:36-72 | the resolution over nodes and headers computes the specification |
| Marking.Marker.IsMarkedAtAddr | allocator/object.c:93-108 | reads membership in the set of marked objects |
| Marking.Marker.MarkObject | allocator/object.c:74-91 | adds exactly that object to the marked ones |
| Marking.Marker.MarkAndPush | marker/marking.c:36-41 | marks, and pushes if and only if it was not marked |
| Marking.Marker.Scan | marker/marking.c:43-56 | pushes, once each, the unmarked children of the object, all of them, and marks them |
| Marking.Marker.Closure | marker/marking.c:58-64 | terminates by the pair of unmarked objects and stack height, with everything closed |
| Marking.Marker.SegmentTraverse | marker/marking.c:87-96 | the invariant for the roots so far extends to the words of the segment |
| Marking.Marker.Mark | marker/marking.c:114-120 | marked afterwards is exactly what was marked or is reachable around it, each object pushed at most once |
| Collector.ReachableIsWhole | allocator/object.c:57-68 | without pointers into tails every reachable object is a whole slot or a block |
| Collector.NoTailsIff | allocator/object.c:57-68 | every reachable object is whole if and only if no root and no word of a reachable object points into a tail |
| Collector.ReadableMarks | allocator/bitmap.c:28-48 | the bits are those of objects if and only if they sit on slots that begin in a block with a size |
| Collector.BitsAreMarked | allocator/object.c:83-86 | the bits set are exactly the slots of the marked objects |
| Collector.FlagsAreMarked | allocator/object.c:76-82 | the blocks flagged are exactly the marked large objects |
| Collector.MarkedKeepsInv | marker/marking.c:114-120 | marking keeps the large heap's invariant |
| Collector.MarkedTree | allocator/object.c:76-82 | the flags of the occupied tree are those of the marked set, no more and no fewer |
| Collector.SweptLayout | sweeper/sweep.c:65-70 | both sweeps, repaired or not, leave headers and an occupied tree that hold exactly the marked objects |
| Collector.Heap.Collect | mt-safety/mt-safety.c:63-66 | from any marks, clearing caches, marking and both sweeps leave in use exactly the objects that were marked and those reachable around them, in both heaps; the large heap is in order if and only if repaired or no dead block is straddled, and then everything is ready for the next collection |
| Collector.Heap.CollectFromClear | mt-safety/mt-safety.c:63-66 | from clear marks exactly the reachable objects are in use |
| Allocations.SmallResult | allocator/object.c:47-69 | every address inside the aligned extent of a slot handed out resolves to it |
| Allocations.LargeResult | allocator/object.c:37-45 | every address inside an occupied block resolves to it |
| Allocations.LargeIsServed | allocator/large-allocator.c:106-149 | a large request is answered NULL if and only if no free block is large enough, or the fit is inexact and the pool empty, and every byte of a result was free |
| Allocations.SmallKeepsInUse | allocator/allocator.c:43-47 | a small request leaves every address of every object in use, in either heap, resolving where it did and outside the result |
| Allocations.LargeKeepsInUse | allocator/allocator.c:48-52 | so does a large one |
| Allocations.NullKeepsLayout | allocator/allocator.c:40-56 | a refused request changes how no address resolves |
| Collector.Heap.AllocateNewObject | allocator/allocator.c:40-56 | the request goes to the allocator for its size and leaves the other heap alone; it is refused only when that allocator is exhausted, for large sizes if and only if no free block or no node will do; the result is new, every address inside its aligned extent resolves to it, and every object in use keeps its addresses outside it |
| GcMalloc.MallocKeepsLive | gc.c:11-22 | whichever way a call takes, every object in use, or marked if it collected, keeps all its addresses, and the result shares no byte with any |
| GcMalloc.MallocKeepsReachable | gc.c:11-22 | with clear marks that is every reachable object |
| GcMalloc.NullMeansFull | gc.c:17-21 | a NULL to a request in range comes after a collection, with every slot of the size taken by a marked object, or no large block or node to be had beside the marked ones |
| GcMalloc.GcMalloc | gc.c:11-22 | the call goes one of three ways: rejected, answered at once, or refused, a collection, and answered |
| Survival.MarkedSurvives | sweeper/sweep.c:65-70 | every address that resolves to a marked object resolves to it after the sweep, in the layout a collection leaves, partial slots included |
| Survival.UnmarkedIsFree | sweeper/sweep.c:56-63 | every byte of an unmarked large block is free after the sweep |
| Survival.AfterCollect | mt-safety/mt-safety.c:63-66 | both, for all objects and all blocks, of the heap that `Collect` leaves |
| Survival.SurvivorsAreNotHandedOut | sweeper/sweep.c:10-54 | whatever blocks the caches of any number of threads held before the sweep, no thread is handed a byte of a marked object before the next NULL |
| Survival.UnmarkedSlotIsHandedOut | allocator/small-allocator.c:162-203 | the slot of an unmarked object in a block of the size that ran out was handed out before the only mutator saw NULL |
| Survival.MarkingCompleteIff | marker/marking.c:36-41 | from stale marks every reachable object is found if and only if each child of a reachable stale one is stale or reached around the stale ones |
| SmallWitnesses.StaleMarkHidesObject | marker/marking.c:36-41 | with the mark that `FillLeavesMark` leaves, a reachable object is not marked |
| SmallWitnesses.TailResolves | allocator/object.c:57-68 | the last bytes of a block resolve to an object that is no whole slot |
| Handshake.StepKeepsInv | mt-safety/mt-safety.c:43-73 | every step of every thread and of the service thread keeps the invariant of the protocol |
| Handshake.RunKeepsInv | mt-safety/mt-safety.c:43-73 | so does every run |
| Handshake.CalledMeansLocked | mt-safety/mt-safety.c:43-70 | a request whose initiator no longer waits for the service thread is being served: allocation is locked and nobody allocates |
| Handshake.OneInitiator | mt-safety/mt-safety.c:44-51 | at most one thread is past the call lock, so the two-party barrier pairs a thread with the service thread |
| Handshake.WorldIsStopped | mt-safety/stop-the-world.c:19-70 | in every run, while marking or sweeping, every registered thread is inside the handler past this collection's barrier, not released, its cache empty, and none is in the allocator |
| Handshake.StepsOfAStop | mt-safety/stop-the-world.c:46-70 | meanwhile only the service thread steps, or a handler going to wait |
| Handshake.ThreadsFixed | mt-safety/mt-safety.c:101-121 | meanwhile no thread is registered or removed |
| Handshake.FailOutsideCollection | allocator/allocator.c:40-56 | an allocation attempt fails only outside marking and sweeping |
| Handshake.RetryFollowsCollection | gc.c:15-20 | between a failed attempt and its retry a whole mark and sweep begins and completes, in any interleaving |
| HandshakeWitness.StopIsReached | mt-safety/stop-the-world.c:46-62 | a run reaches the mark phase, so a stopped world is not an empty case |
| HandshakeWitness.RetryIsReached | gc.c:15-20 | and goes on to the retry |
| HandshakeWitness.EndlessStopIsReached | mt-safety/stop-the-world.c:25-60 | a run of two threads ends in a second stop from which no run reaches the mark phase |
| Attempts.RunUses | gc.c:16-21 | over any run without a new call of the thread, its attempts never exceed those left, and while the call lasts are exactly those used up |
| Attempts.TwoAttemptsAtMost | gc.c:16-21 | between two calls of a thread it tries at most twice |
| Attempts.NullAfterTwoAttempts | gc.c:16-21 | a failing attempt ends the call if and only if it is the second, and asks for a collection if and only if it is the first |
| Attempts.SecondFailureReturns | gc.c:19-21 | after a failed retry nothing of the call is left, in any run |
| Attempts.SuccessReturns | gc.c:16-21 | nor after a successful attempt |
| StopProgress.NoWakeUpIsLost | mt-safety/stop-the-world.c:26-30 | in every run a thread waits only while the flag is down for the stop under way or the broadcast is the service thread's next step |
| StopProgress.DoomedForever | mt-safety/stop-the-world.c:25-29 | a thread left over in the handler while the next stop signals keeps that stop from ending in every run: no collection completes and no thread allocates |
| StopProgress.StopCompletesIff | mt-safety/stop-the-world.c:46-62 | from a stop under way some run reaches the mark phase if and only if no thread is left in the handler of an earlier one |
| StopProgress.NextStopCompletesIff | mt-safety/stop-the-world.c:53-60 | in every run, when a stop is about to clear the flag, it can be completed if and only if no thread is between the last barrier and its test of the flag |
| ThreadsStorage.Storage.CreateCellForThread | mt-safety/threads-storage.c:15-36 | the new cell heads the doubly linked list and the count follows |
| ThreadsStorage.Storage.DestroyCell | mt-safety/threads-storage.c:38-54 | exactly that cell leaves, wherever it is, the others in order |
| ThreadsStorage.Storage.Traverse | mt-safety/threads-storage.c:80-97 | the traversal yields every registered thread once |

## Left out

- TreeHeap.RemoveFromBst: the nested call that unlinks the successor, which has no left child, is written as that unlinking.
- Collector.Heap.Collect: clears the cache of one thread in place; any number of caches is `Survival.SurvivorsAreNotHandedOut`, on the model state. The words a scan of a partial slot reads beyond its block are words of the same fixed map.
- Marking.Marker.Mark: the words of objects and of root segments are a fixed map from addresses to words, apart from headers; addresses are unbounded naturals; the assertion that a segment is not empty is not required.
- SmallHeap.SmallAllocator.AllocateSmallObject: one thread runs; the interleaving of threads is proved on `SmallMachine`, whose steps the method performs.
- LargeRuns.RunKeepsInv: runs are those of the repaired code; `LargeWitnesses.RunsAsWritten` says which of them are the code's own.
- SmallRuns.RunHandsOutFreshSlots: holds from a sweep to the first NULL; `fill_all_bitmaps_with_zeros` racing with other threads is not a step.
- Handshake.RetryFollowsCollection: safety only; `StopProgress` says when a stop can be completed, not that a fair scheduler completes it. Spurious wake-ups and thread exit during a stop are not modelled.
- Handshake.StepKeepsInv: `pthread_create` is one atomic registration under the read lock of the creation lock, the registration of the main thread is part of the initial state.
- MarkStack.Stack.Push: the capacity is unbounded where the code uses `int`, and `realloc` does not fail.
- GcMalloc.GcMalloc: with both repairs of the large heap, no other mutator, and memory that does not change between the attempts; after a NULL to a small size the next call has to be preceded by a collection, as `FillBreaksInv` shows.
- gc_calloc, gc_realloc and memory copying: thin wrappers.
- Logging and its byte counters, and the results of `check_the_space`, which both allocators ignore.
- Obtaining memory and nodes from the system, constructors' failure paths, destructors and the shutdown of the service thread.
- Pushing registers, the bounds of thread stacks and of the data segments: root segments are given sequences of words.
