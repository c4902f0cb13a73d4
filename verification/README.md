# Systems labs in Dafny

This project models the parts of the repository that are hard to get right, and proves what they are meant to do:

* **Red-black-tree best fit** (`mm_rbtree_ref.c`): the tree that lives inside free heap blocks, with the root and the
  nil node sharing one node; insertion, deletion, rotations and the fix-up loops; and `mm_init`, `mm_malloc`,
  `mm_free`, `mm_check` on top of it.
* **Segregated lists** (`mm.c`): fifty ascending doubly linked lists by ceil-log2 class, splitting at the low or the
  high end, coalescing with re-insertion.
* **Segregated lists, second design** (`mm_seg_ref_97.c`): descending lists by floor-log2 class; joining and splitting
  happens outside the lists; requests are rounded up to powers of two by smearing bits.
* **Explicit list** (`mm_explicit_ref.c`): first fit over a circular list with a sentinel, and `mm_realloc`.
* **The proxy's object cache** (`cache.c`) and its **request protocol** (`handler.c`): byte-bounded eviction,
  move-to-front, LRU stack inclusion, and all interleavings of request threads.
* **Rio** (`csapp.c`): the buffered reader over short and interrupted reads.

The heap is an array of cells that the allocators read and write in place, as the programs do; an address is a byte
offset from the start of the heap. Beside it stands a ghost description: the sequence of adjacent blocks, and the tree
or the lists of free blocks. Each operation is proved against a function on that description (`Carve`, `Grow`, `Place`,
`Extended`, `Release`, `Push`, `Touch`), and the lemmas say what these functions preserve, undo and leave unchanged.

## Layout

| files | contents |
|---|---|
| `Common`, `Memlib`, `Blocks`, `Fits`, `Tags` | words, the simulated memory, partitions of the heap, requests and placement, boundary tags |
| `RbModel`, `RbMem`, `RbRotate`, `RbPaint`, `RbFix`, `RbInsert`, `RbSearch`, `RbDelete` | the red-black tree |
| `RbHeap`, `RbAlloc` | the allocator over the tree |
| `SegLists`, `SegHeap`, `SegMoves` | segregated lists, for both designs |
| `SegOps`, `SegCoalesce`, `SegAlloc` | `mm.c` |
| `RoundUp`, `FloorOps`, `FloorAlloc` | `mm_seg_ref_97.c` |
| `RingList`, `RingHeap`, `RingAlloc` | `mm_explicit_ref.c` |
| `Trace`, `TagTrace`, `RbTrace`, `SegTrace`, `FloorTrace`, `RingTrace` | whole runs of a client against each allocator |
| `Bytes`, `Lru`, `Cache`, `Handler`, `Protocol`, `Alone` | the proxy |
| `Rio` | the buffered reader |

`dafny verify dfyconfig.toml` checks everything.

## Findings

* In `mm_rbtree_ref.c`, `mm.c` and `mm_explicit_ref.c` the size of the block for a request is computed with 32-bit arithmetic. A request
  gets a block with enough room exactly up to 2^32 - 16 bytes (`RbAlloc.BlockSizeFits`, `Fits.AdjustedFits`); beyond
  that the rounding wraps around and the block is too small. `mm_seg_ref_97.c` has the same limit
  (`FloorAlloc.NeedFits`).
* `mm_init` of `mm_explicit_ref.c` links the sentinel's predecessor to the wrong word. It does not matter: that word is
  not read before the first `list_add` overwrites it (`RingList.Tied`).
* `mm_realloc` of `mm_explicit_ref.c` bounds the copy by the size of the whole old block, so it may copy the old footer
  and the next header as well. They land in the part of the new payload that has no old contents
  (`RingAlloc.RingAllocator.Realloc`).
* `mm_init` of `mm_seg_ref_97.c` clears 51 list heads after reserving room for 50: the last one lies at the break
  (`FloorAlloc.HeadsBelow`), and the next call of `mem_sbrk` reserves the missing word.
* The check for a double free in `mm_rbtree_ref.c` reads a header that may no longer be one. A block still starts where
  the freed block started exactly if the block before it was allocated (`Blocks.ReleasedStart`); then the second call
  sees a free block and does nothing. If the block before it was free and had 24 bytes or more, the old header still
  says that the block is allocated (`RbAlloc.Allocator.Free`), so the check passes. `Blocks.LostStart` gives a heap in
  which the free block behind has left the tree as well.
* `rb_fix` keeps the root in a local variable that rotations may make stale. Whenever it decides anything, either the
  root has not moved or the old root is already black, so that painting it black is harmless (`RbFix.FixInv`).

## Model

| member | source | states |
|---|---|---|
| Memlib.Memory.Sbrk | 03malloclab/malloclab-handout/memlib.c:58-69 | growing fails, and changes nothing, exactly if the increment is negative or passes the limit; otherwise the old break is returned and old contents stay |
| Memlib.Memory.ResetBrk | 03malloclab/malloclab-handout/memlib.c:48-51 | the heap is empty again |
| RbRotate.Rotate | 03malloclab/malloclab-handout/mm_rbtree_ref.c:241-278 | a rotation turns the represented tree around one edge, in its context, and writes link words of tree nodes only; nil's scratch parent survives |
| RbModel.RotateInOrder | 03malloclab/malloclab-handout/mm_rbtree_ref.c:241-278 | a rotation keeps the in-order sequence |
| RbModel.PlugRB | 03malloclab/malloclab-handout/mm_rbtree_ref.c:283-339 | a tree is red-black exactly if the subtree in focus and its context fit together |
| RbFix.FixRecolour | 03malloclab/malloclab-handout/mm_rbtree_ref.c:295-297 | the recolouring case either repairs the tree or moves the missing black one level up |
| RbFix.FixBorrow | 03malloclab/malloclab-handout/mm_rbtree_ref.c:298-309 | the cases with a red nephew repair the tree and keep its in-order sequence |
| RbFix.Fix | 03malloclab/malloclab-handout/mm_rbtree_ref.c:283-339 | from a tree that lacks one black node below the hole, the loop ends in a red-black tree with the same in-order sequence, whatever the stale root |
| RbDelete.DeleteThin | 03malloclab/malloclab-handout/mm_rbtree_ref.c:344-372 | unlinking a node with at most one child removes exactly its item and leaves a red-black tree |
| RbDelete.TakePlace | 03malloclab/malloclab-handout/mm_rbtree_ref.c:359-368 | the successor takes over all links and the colour of the deleted node |
| RbDelete.Delete | 03malloclab/malloclab-handout/mm_rbtree_ref.c:344-372 | exactly the given node leaves the tree; order, parent links, black root, no red-red edge and equal black heights hold again |
| RbInsert.Descend | 03malloclab/malloclab-handout/mm_rbtree_ref.c:380-396 | the descent walks from the root down to nil, to the one place where the item belongs, in at most as many steps as the tree is high |
| RbInsert.InsertFix | 03malloclab/malloclab-handout/mm_rbtree_ref.c:411-446 | recolouring and rotations repair a single red-red edge, and the loop terminates by the depth of the node |
| RbInsert.Insert | 03malloclab/malloclab-handout/mm_rbtree_ref.c:377-447 | exactly the given node joins the tree, in order, and all red-black invariants hold again |
| RbModel.LogHeight | 03malloclab/malloclab-handout/mm_rbtree_ref.c:181-192 | with n nodes the height is at most 2 log2(n+1) |
| RbSearch.Find | 03malloclab/malloclab-handout/mm_rbtree_ref.c:181-192 | the smallest sufficient node, lowest address among equals, or nil exactly if none fits; the walk from the root down to nil has at most 2 log2(n+1) steps |
| RbSearch.FindExact | 03malloclab/malloclab-handout/mm_rbtree_ref.c:197-215 | true exactly for tree nodes |
| RbSearch.Successor | 03malloclab/malloclab-handout/mm_rbtree_ref.c:220-236 | the next node in (size, address) order, or nil for the last |
| RbAlloc.BlockSizeFits | 03malloclab/malloclab-handout/mm_rbtree_ref.c:544-549 | a block has room for header and request if and only if the request is at most 2^32 - 16; then it is no larger than the next multiple of eight, or 24 bytes |
| RbAlloc.BlockSizeLeast | 03malloclab/malloclab-handout/mm_rbtree_ref.c:544-549 | no smaller block would do |
| RbAlloc.FitInHeap | 03malloclab/malloclab-handout/mm_rbtree_ref.c:552-567 | the best fit in the tree is the best fit among all free blocks, also those too small for the tree |
| RbAlloc.TakeFit | 03malloclab/malloclab-handout/mm_rbtree_ref.c:567-579 | the low end of the block is allocated, the rest is a free block again, in tags and tree; other blocks are untouched |
| RbAlloc.TakeGrown | 03malloclab/malloclab-handout/mm_rbtree_ref.c:553-579 | the heap grows by what a free last block does not cover; other blocks are untouched |
| RbAlloc.FreeUsed | 03malloclab/malloclab-handout/mm_rbtree_ref.c:615-655 | the block merges with its free neighbours, in tags and tree; other blocks are untouched |
| RbAlloc.Allocator.Init | 03malloclab/malloclab-handout/mm_rbtree_ref.c:162-176 | an empty heap that satisfies the invariant, or -1 exactly if memory does not suffice |
| RbAlloc.Allocator.Malloc | 03malloclab/malloclab-handout/mm_rbtree_ref.c:544-596 | best fit over the whole heap for the least block that holds the request; the break moves only if nothing fits, and then by the block size minus the size of a free last block; blocks tile the heap, tags mirror, no two free neighbours, tree = free blocks of 24 bytes or more; live payloads keep their contents |
| RbAlloc.Allocator.Free | 03malloclab/malloclab-handout/mm_rbtree_ref.c:601-662 | an allocated block merges with its free neighbours, and the invariant and all other payloads hold; nothing changes if the block that starts here is free; behind a large free block the old header keeps saying allocated |
| Blocks.ReleasedStart | 03malloclab/malloclab-handout/mm_rbtree_ref.c:608-643 | after a free, a block starts at the freed address exactly if the block before it was allocated; that block is free |
| Blocks.LostStart | 03malloclab/malloclab-handout/mm_rbtree_ref.c:608-643 | a heap in which no block starts at the freed address afterwards, nor at the free block behind it |
| RbAlloc.CheckHeap | 03malloclab/malloclab-handout/mm_rbtree_ref.c:477-536 | the heap checker accepts a heap if and only if every tree node carries the free bit, no two neighbours are free, and every free block of 24 bytes or more is in the tree |
| RbAlloc.InvPasses | 03malloclab/malloclab-handout/mm_rbtree_ref.c:477-536 | every reachable heap meets these conditions |
| RbAlloc.Payloads | 03malloclab/malloclab-handout/mm_rbtree_ref.c:544-596 | payloads are aligned, lie inside the heap and do not overlap |
| RbAlloc.StoreInv | 03malloclab/malloclab-handout/mm_rbtree_ref.c:544-662 | whatever an owner writes into its payload, the heap stays well-formed and other blocks keep tags and contents |
| Blocks.CarveRelease | 03malloclab/malloclab-handout/mm_rbtree_ref.c:567-643 | freeing right after an allocation that did not grow the heap restores the partition |
| Blocks.CarveIndex | 03malloclab/malloclab-handout/mm_rbtree_ref.c:567-643 | the returned address leads back to exactly that block |
| Blocks.ReleaseWellFormed | 03malloclab/malloclab-handout/mm_rbtree_ref.c:615-655 | after a release blocks still tile the heap and no two neighbours are free |
| Blocks.FreesAll | 03malloclab/malloclab-handout/mm_rbtree_ref.c:601-662 | freeing all live blocks, in any order, leaves one free block that spans the heap, or none |
| SegLists.CeilPow2Idx | 03malloclab/malloclab-handout/mm.c:83-97 | the number of shifts is the least c with size <= 2^c |
| SegLists.ClassFits | 03malloclab/malloclab-handout/mm.c:104-106 | every 32-bit size has a list |
| SegLists.ClassOrder | 03malloclab/malloclab-handout/mm.c:123-135 | blocks of a lower class are smaller, in both designs |
| SegLists.PoppedChain | 03malloclab/malloclab-handout/mm.c:137-161 | unlinking one block leaves a doubly linked, ordered list of the others and writes list words only |
| SegLists.PushedChain | 03malloclab/malloclab-handout/mm.c:163-202 | linking in a block leaves a doubly linked, ordered list with it and writes list words only |
| SegOps.PopFromSeglist | 03malloclab/malloclab-handout/mm.c:137-161 | exactly this block leaves the list of its class, the order of the others stays; tags, other lists and payloads stay |
| SegOps.PushPosition | 03malloclab/malloclab-handout/mm.c:184-189 | the position behind the head and behind all smaller blocks, before the first block of the same size or larger |
| SegOps.PushInSeglist | 03malloclab/malloclab-handout/mm.c:163-202 | exactly this block joins the list of its class, at that position or in front of a larger head; the list stays ascending |
| SegMoves.SpotOnce | 03malloclab/malloclab-handout/mm.c:163-202 | a list has only one such position, in both designs |
| SegOps.FindFit | 03malloclab/malloclab-handout/mm.c:108-135 | a smallest sufficient free block of the whole heap, the first that fits in the list of its class, or NULL exactly if none fits |
| SegMoves.FitFound | 03malloclab/malloclab-handout/mm.c:123-135 | the smallest fit of the first class that has one is a smallest fit of the heap |
| SegCoalesce.Coalesce | 03malloclab/malloclab-handout/mm.c:206-254 | the block and its free neighbours become one listed block; everything else stays |
| SegAlloc.ExtendHeap | 03malloclab/malloclab-handout/mm.c:256-273 | one free block more at the end, merged with a free last block; NULL exactly if memory does not suffice, and then nothing changes |
| SegAlloc.PlaceBlock | 03malloclab/malloclab-handout/mm.c:275-310 | the whole block, its low end or its high end is allocated, the rest is listed; other payloads keep their contents |
| Fits.SplitTiles | 03malloclab/malloclab-handout/mm.c:275-310 | allocated block and rest tile the old block; the allocated one is less than 16 bytes larger than needed |
| Fits.PlaceRelease | 03malloclab/malloclab-handout/mm.c:275-310 | freeing right after a placement restores the partition, for low and high splits |
| Fits.PlaceIndex | 03malloclab/malloclab-handout/mm.c:275-310 | the returned address leads back to exactly the placed block |
| Fits.AdjustedFits | 03malloclab/malloclab-handout/mm.c:352-364 | a block has room for header, footer and request if and only if the request is at most 2^32 - 16; then it is no larger than the next multiple of eight, or 16 bytes |
| Fits.AdjustedLeast | 03malloclab/malloclab-handout/mm.c:352-364 | no smaller block would do |
| Fits.ExtendedLast | 03malloclab/malloclab-handout/mm.c:256-273 | growing by n bytes yields one free block at the end, which includes a free last block |
| Fits.SupplyFit | 03malloclab/malloclab-handout/mm.c:366-377 | after growing, the last block is the only one that fits |
| SegAlloc.SegAllocator.Init | 03malloclab/malloclab-handout/mm.c:318-346 | one free block of 256 bytes, or -1 exactly if memory does not suffice |
| SegAlloc.SegAllocator.Malloc | 03malloclab/malloclab-handout/mm.c:352-378 | a smallest sufficient block is used for the least block that holds the request: its low end for less than 100 bytes, its high end for more, all of it if less than 16 bytes would be left; NULL exactly for size 0 or if nothing fits and the heap cannot grow; each free block is in exactly the list of its class, header equals footer, no two free neighbours; live payloads keep their contents |
| SegAlloc.SegAllocator.Free | 03malloclab/malloclab-handout/mm.c:383-394 | the block merges with its free neighbours; invariant and other payloads hold |
| Tags.Payloads | 03malloclab/malloclab-handout/mm.c:275-394 | payloads are aligned, lie inside the heap and do not overlap |
| SegHeap.PayloadInv | 03malloclab/malloclab-handout/mm.c:352-394 | whatever an owner writes into its payload, heap and lists stay well-formed and other payloads the same |
| SegTrace.Replay | 03malloclab/malloclab-handout/mm.c:318-394 | any run of allocations, writes and releases agrees with the same run on independent buffers, and buffers stay separate; a request is served exactly if a block fits or the heap may still grow, and every step changes the partition as malloc and free do |
| SegTrace.NeverRefused | 03malloclab/malloclab-handout/mm.c:352-378 | if the heap may still grow by all that the run asks for, no request of a legal size is refused |
| SegTrace.FreeAll | 03malloclab/malloclab-handout/mm.c:383-394 | freeing all live blocks, in any order, leaves one free block that spans the heap, or none |
| RbTrace.Replay | 03malloclab/malloclab-handout/mm_rbtree_ref.c:544-662 | the same for any run against the red-black allocator whose client asks only for what the heap may still grow by |
| RbTrace.NeverRefused | 03malloclab/malloclab-handout/mm_rbtree_ref.c:544-596 | if the heap may still grow by all that the run asks for, no request of a legal size is refused |
| RbTrace.FreeAll | 03malloclab/malloclab-handout/mm_rbtree_ref.c:601-662 | freeing all live blocks, in any order, leaves one free block that spans the heap, or none |
| FloorTrace.Replay | 03malloclab/malloclab-handout/mm_seg_ref_97.c:508-564 | the same for any run against this allocator |
| FloorTrace.NeverRefused | 03malloclab/malloclab-handout/mm_seg_ref_97.c:508-542 | if the heap may still grow by all that the run asks for, no request of a legal size is refused |
| FloorTrace.FreeAll | 03malloclab/malloclab-handout/mm_seg_ref_97.c:552-564 | freeing all live blocks, in any order, leaves one free block that spans the heap, or none |
| RingTrace.Replay | 03malloclab/malloclab-handout/mm_explicit_ref.c:91-201 | the same with resizing: a moved buffer keeps the words that still fit |
| RingTrace.NeverRefused | 03malloclab/malloclab-handout/mm_explicit_ref.c:91-201 | the same for requests and resizings |
| RingTrace.FreeAll | 03malloclab/malloclab-handout/mm_explicit_ref.c:150-156 | freeing all live blocks, in any order, leaves one free block that spans the heap, or none |
| Trace.Resized | 03malloclab/malloclab-handout/mm_explicit_ref.c:186-201 | copying the smaller of old room and new size is enough for resizing in the run of independent buffers |
| Trace.Buffers | 03malloclab/malloclab-handout/mm.c:352-394 | in every such state live buffers are aligned, inside the heap and disjoint |
| Trace.Words | 03malloclab/malloclab-handout/mm.c:352-394 | in every such state a word last written to a live buffer is still there |
| FloorOps.RemoveBlock | 03malloclab/malloclab-handout/mm_seg_ref_97.c:370-395 | exactly this block leaves the list of its class, the order of the others stays |
| FloorOps.PlaceBlockIntoList | 03malloclab/malloclab-handout/mm_seg_ref_97.c:401-457 | exactly this block joins the list of its class, behind all larger blocks and before the others; the list stays descending |
| SegLists.FindFreeListIndex | 03malloclab/malloclab-handout/mm_seg_ref_97.c:168-178 | the number of shifts is the greatest c with 2^c <= words, at most 51 |
| FloorOps.FindFreeBlock | 03malloclab/malloclab-handout/mm_seg_ref_97.c:267-307 | a smallest sufficient free block of the whole heap, or NULL exactly if none fits; in its list the first of exactly the right size, or else the last that fits |
| FloorAlloc.Coalesce | 03malloclab/malloclab-handout/mm_seg_ref_97.c:188-221 | the block and its free neighbours become one block outside the lists |
| FloorAlloc.ExtendHeap | 03malloclab/malloclab-handout/mm_seg_ref_97.c:231-256 | a new free block at the end, outside the lists and not merged; NULL exactly if memory does not suffice |
| FloorAlloc.AllocFreeBlock | 03malloclab/malloclab-handout/mm_seg_ref_97.c:319-363 | the low end is allocated and the rest listed; a rest of 8 bytes stays with the block |
| FloorAlloc.GrownCoalesced | 03malloclab/malloclab-handout/mm_seg_ref_97.c:523-536 | although the new block is not merged with a free last block, no two free blocks become neighbours |
| RoundUp.SmearStep | 03malloclab/malloclab-handout/mm_seg_ref_97.c:154-159 | x or (x shifted by s) doubles the number of ones at the top |
| RoundUp.RoundUpPower2 | 03malloclab/malloclab-handout/mm_seg_ref_97.c:150-161 | the least power of two that is not smaller; zero for zero and for negative numbers |
| FloorAlloc.NeedFits | 03malloclab/malloclab-handout/mm_seg_ref_97.c:508-514 | the block has room and its size does not wrap around if and only if the request is at most 2^32 - 16; then it is the least that holds the rounded request |
| FloorAlloc.RoundedOnce | 03malloclab/malloclab-handout/mm_seg_ref_97.c:508-514 | up to 4096 bytes the rounded request is the one power of two from the size to just below its double, above that the size itself |
| FloorAlloc.NeedLeast | 03malloclab/malloclab-handout/mm_seg_ref_97.c:508-514 | no smaller block would do for the rounded request |
| FloorAlloc.HeadsBelow | 03malloclab/malloclab-handout/mm_seg_ref_97.c:467-474 | with 200 bytes reserved every list head lies below the break but the last one |
| FloorAlloc.FloorAllocator.Init | 03malloclab/malloclab-handout/mm_seg_ref_97.c:465-500 | one free block of 1024 words, or -1 exactly if memory does not suffice |
| FloorAlloc.FloorAllocator.Malloc | 03malloclab/malloclab-handout/mm_seg_ref_97.c:508-542 | a smallest sufficient block for the rounded request, or a new one only if none fits; its low end is used, all of it if less than 16 bytes would be left; lists and heap agree, no two free neighbours; live payloads keep their contents |
| FloorAlloc.FloorAllocator.Free | 03malloclab/malloclab-handout/mm_seg_ref_97.c:552-564 | the block merges with its free neighbours; invariant and other payloads hold |
| RingList.AddedCircle | 03malloclab/malloclab-handout/mm_explicit_ref.c:137-142 | adding behind the sentinel keeps the ring, doubly linked |
| RingList.RemovedCircle | 03malloclab/malloclab-handout/mm_explicit_ref.c:143-146 | unlinking keeps the ring of the others |
| RingAlloc.FindFit | 03malloclab/malloclab-handout/mm_explicit_ref.c:113-121 | the first block of the ring that fits, or NULL exactly if none does; the allocated sentinel ends the walk |
| RingAlloc.PlaceBlock | 03malloclab/malloclab-handout/mm_explicit_ref.c:122-136 | the block leaves the ring, its low end is allocated, the rest becomes the first of the ring |
| RingAlloc.Coalesce | 03malloclab/malloclab-handout/mm_explicit_ref.c:157-182 | the free neighbours leave the ring, and the merged block becomes its first |
| RingAlloc.ExtendHeap | 03malloclab/malloclab-handout/mm_explicit_ref.c:75-86 | one free block more at the end, merged with a free last block |
| RingAlloc.RingAllocator.Init | 03malloclab/malloclab-handout/mm_explicit_ref.c:61-74 | one free block of 4096 bytes, or -1 exactly if memory does not suffice |
| RingAlloc.RingAllocator.Malloc | 03malloclab/malloclab-handout/mm_explicit_ref.c:91-112 | first fit in the order of the ring, for the least block that holds the request; the ring is exactly the set of free blocks, the newest first, no two are neighbours; the new block overlaps no live one; live payloads keep their contents |
| RingAlloc.RingAllocator.Free | 03malloclab/malloclab-handout/mm_explicit_ref.c:150-156 | the block merges with its free neighbours and becomes the first of the ring; invariant and other payloads hold |
| RingAlloc.RingAllocator.Move | 03malloclab/malloclab-handout/mm_explicit_ref.c:195-199 | copy and release: the old contents, as far as they fit, are in the new block; other payloads stay |
| RingAlloc.RingAllocator.Realloc | 03malloclab/malloclab-handout/mm_explicit_ref.c:186-201 | the new payload starts with the first min(old payload, new size) bytes of the old one, the old block is free, all other payloads are unchanged; NULL changes nothing |
| Lru.FitLongest | 06proxylab/proxylab-handout/cache.c:90-96 | eviction leaves the longest prefix of the recency list that fits |
| Lru.StackInclusion | 06proxylab/proxylab-handout/cache.c:16-113 | over any run of requests with sizes that depend on the key, the smaller cache is a prefix of the larger one, so its hits are hits there |
| Cache.Cache.constructor | 06proxylab/proxylab-handout/cache.c:3-14 | an empty cache within its limits |
| Cache.Cache.PopObject | 06proxylab/proxylab-handout/cache.c:115-145 | exactly this object leaves the list and the size count |
| Cache.Cache.MakeRoom | 06proxylab/proxylab-handout/cache.c:90-96 | objects leave from the tail until the new one fits; terminates also with empty objects |
| Cache.Cache.PushFront | 06proxylab/proxylab-handout/cache.c:84-113 | the new object followed by the longest prefix that fits; the size count is the sum of the cached sizes; evicted objects are freed once |
| Cache.Cache.FindCache | 06proxylab/proxylab-handout/cache.c:16-38 | the most recent matching object moves to the front; nothing is evicted |
| Handler.ForwardResponse | 06proxylab/proxylab-handout/handler.c:157-166 | every chunk is sent in order; below the limit the buffer holds the complete response |
| Handler.HandleRequest | 06proxylab/proxylab-handout/handler.c:107-182 | without interference a request serves and updates the recency list as in the run model: what was sent is the most recent object, unless it came from the server and is too large; then nothing changes |
| Protocol.LookupKeeps | 06proxylab/proxylab-handout/handler.c:107-119 | a lookup misses exactly if no cached object has the key; otherwise the thread holds the most recent one, which moves to the front |
| Protocol.StepKeeps | 06proxylab/proxylab-handout/handler.c:107-182 | every step of every thread keeps the cache and the threads' invariants; only lookups and insertions change the cache, and they do so as in the run model |
| Protocol.SafeRuns | 06proxylab/proxylab-handout/handler.c:107-182 | in every interleaving the cache is within bounds and holds complete responses only, a hit object is used under the lock and while allocated; a client gets all that its server sent, in order, or else a stored response for its key; a response below the limit is stored before its request ends |
| Protocol.NoDeadlock | 06proxylab/proxylab-handout/handler.c:107-182 | while a request is unfinished, some thread can move |
| Alone.Hits | 06proxylab/proxylab-handout/handler.c:107-119 | an undisturbed request for a cached object gets the most recent one and fetches nothing |
| Alone.Misses | 06proxylab/proxylab-handout/handler.c:120-182 | an undisturbed request for another object gets all that the server sends; below the limit it becomes the most recent object, above it the cache stays |
| Alone.SecondRequestHits | 06proxylab/proxylab-handout/handler.c:107-182 | what one thread has fetched another one gets from the cache |
| Rio.LineLengthUnique | 06proxylab/proxylab-handout/csapp.c:871-893 | the first of newline, limit and end of data determines one length |
| Rio.Reader.Read | 06proxylab/proxylab-handout/csapp.c:805-830 | the next pending bytes are delivered: as many as asked for, or all that are buffered; none only at the end of the stream; the descriptor is read only if the buffer is empty, up to 8192 bytes at a time |
| Rio.Reader.ReadN | 06proxylab/proxylab-handout/csapp.c:849-864 | exactly n bytes, or all that are left, under any schedule of short and interrupted reads |
| Rio.Reader.ReadLine | 06proxylab/proxylab-handout/csapp.c:871-893 | the bytes up to the first newline, maxlen - 1 bytes or the end, then a zero byte |
| Rio.Mix | 06proxylab/proxylab-handout/csapp.c:805-893 | for any mix of calls, bytes delivered followed by bytes pending are the bytes of the stream |

## Left out

- RbAlloc.Allocator.Malloc: the source does not check `mem_sbrk` here, so the contract requires room for the request (`Room`).
- SegAlloc.SegAllocator.Malloc: requests above 2^32 - 16 bytes are excluded, because the wrapped block size breaks the heap; `Fits.AdjustedFits` says exactly when the size is right.
- RingAlloc.RingAllocator.Malloc: the same limit on requests.
- RingAlloc.RingAllocator.Realloc: the same limit on requests.
- FloorAlloc.FloorAllocator.Malloc: the same limit on requests, by `FloorAlloc.NeedFits`.
- FloorAlloc.FloorAllocator.Init: the 51st list head is cleared after the break covers it; the source clears it just before.
- RbAlloc.Allocator.Free: specified only where a block starts at the given address; `Blocks.ReleasedStart` says when that is still so for a second free.
- RbAlloc.CheckHeap: heaps whose tags are not mirrored, or whose tree is no search tree, are excluded; there the walk of the source has no meaning.
- RoundUp.RoundUpPower2: arguments above 2^30, for which the result does not fit into an `int`; `mm_malloc` passes at most 4096.
- SegTrace.Replay: requests above the limit are not passed on to the allocator.
- FloorTrace.Replay: requests above the limit are not passed on to the allocator.
- RingTrace.Replay: requests above the limit are not passed on to the allocator.
- RbTrace.Replay: requests above the limit, or larger than what the heap may still grow by, are not passed on to the allocator.
- SegOps.FindFit: `Class` and the lists are modelled for sizes up to 2^32.
- Cells: a word is one cell at its first byte, at a multiple of four, so words do not overlap; accesses of different width to the same bytes are not modelled, and bytes occur only in payloads. Addresses are offsets from the start of the heap, and NULL is 0.
- `mem_sbrk` takes an `int`; heaps are at most 2^31 - 1 bytes long, so an increment that would wrap to a negative number fails in the model because it is too large.
- Mirrored branches of the red-black tree are written once, with a parameter for the side; pointers that the source reads again from memory between two writes are kept in local variables where the word cannot have changed.
- The four branches of `coalesce` in `mm.c` and `mm_seg_ref_97.c` are written as two independent tests with the same writes.
- `mm_realloc` and the reallocation tag of `mm.c`, `mm_realloc` of `mm_seg_ref_97.c`, and `mm_seg_ref_98.c`.
- `mm_exit`, the `gl_ranges` lists and the printing functions of `mm_rbtree_ref.c`.
- The weaker allocators `mm_seg.c`, `mm_segregate_ref.c`, `mm_implicit.c`, `mm_implicit_ref.c`, and the driver `mdriver.c` with its timers.
- Time stamps of cache objects are arbitrary numbers; `malloc` failure in the proxy, `free_cache` and `print_cache`.
- Parsing of requests, forwarding of headers, sockets, thread creation and the wrappers of `csapp.c`; a pair (host, uri) is an opaque key, and the response is an arbitrary sequence of chunks.
- Rio on errors states only that some first bytes were delivered and the rest is still pending.
- The shell, bomb, buffer and debugger labs.
