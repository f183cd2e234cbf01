# Free-list allocator, modelled and proved in Dafny

This project models the core of `my_malloc.c`, a `malloc`/`free` pair built on
an explicit free list. The arena grows one 2048-byte chunk at a time from a
provider (`my_sbrk`). Every block starts with a header holding its size, its
in-use flag and its free-list links. The free list is a doubly linked list of
free headers, threaded through the arena. One of two policies orders it:

- **size order**: the list is kept ascending by block size, and allocation takes
  the first block that fits;
- **address order**: the list is kept ascending by address, and allocation takes
  the smallest block that fits after a scan of the whole list.

Allocation works in three steps. It rejects a request that cannot fit in one
chunk with its header, seeds an empty list with a chunk, and hands out the
chosen block, split when the remainder is large enough. On a miss it grows the
arena by one chunk. The new chunk is merged into a free block that ends at the
old arena end, and the search runs again. Release merges the block with its
free neighbours on both sides and links the result back in.

Layout:

- `blocks.dfy` (module `Blocks`): constants, and block headers as offsets into
  the arena `[0, brk)`. It defines `Tiled`, which says the blocks partition the
  arena, with lemmas for split, merge and growth.
- `freelist.dfy` (module `FreeList`): the free list as a sequence of offsets.
  It holds the unlink (`Without`), the sorted insert (`Insert`), the two
  searches (`FirstFit`, `BestFit`), the left-neighbour lookup (`EndingAt`) and
  the free-byte count.
- `arena.dfy` (module `Arena`): the allocator's abstract state and one function
  per routine (`Carve`, `Grow`, `GetMemorySpec`, `Allocate`, `Coalesce`,
  `Release`). It also defines the invariant `Inv` that holds between calls.
- `allocation.dfy` (`Allocation`), `service.dfy` (`Service`) and
  `freeing.dfy` (`Freeing`): the properties of allocation and release.
  `Service` also holds the cases one request goes through: rejected, seeded,
  served from the list, retried after growth, or out of memory.
- `links.dfy` (module `Links`): the doubly linked list in the headers
  (`LinkedList`), and what each pointer update does to it.
- `allocator.dfy` (module `Malloc`): the class `Allocator`, the imperative
  model. Its fields are the header maps, the list head, the arena end and the
  error code. Each C function is a method, and each method's contract ties the
  new state to the `Arena` function of the old state.
- `findings.dfy` (module `Findings`): the address-order insert as written, the
  list it breaks, and a run from a fresh arena that reaches the broken list.
- `scenarios.dfy` (module `Scenarios`): whole runs, computed by the model
  step by step.

Allocator states and free lists:

- `Model()` is the abstract state of an `Allocator`: its header map, its free
  list in link order (the ghost field `fl`) and its arena end.
- `Linked()` says that the `links` map and the head `freelist` thread exactly
  the list `fl`.
- `Valid()` is `Linked()` together with `Inv`.
- In the `states` column, "list" means the free list in link order.

Numbers:

- Offsets are byte offsets from the start of the arena.
- `NIL` (-1) stands for both the null pointer and the null link.
- The header size `H` is 24 bytes, so a 1500-byte request takes a block of
  1524 bytes.

## Model

| member | source | states |
|---|---|---|
| Malloc.Allocator.constructor | my_malloc.c:29-31 | A new allocator has an empty free list, an empty arena and no error, and satisfies the invariant. |
| Malloc.Allocator.Malloc | my_malloc.c:33-70 | The policy is fixed per allocator, so this models both `my_malloc_size_order` and `my_malloc_addr_order` (72-108). The new state, the returned pointer and the error code are exactly those of `Arena.Allocate`. The invariant is kept. |
| Malloc.Allocator.Request | my_malloc.c:46-69 | For a request that fits in a chunk, seeding an empty list and then serving the request gives `Allocate`'s state, pointer and error code. |
| Malloc.Allocator.SeedFreelist | my_malloc.c:47-62 | The seeding fails (returns NIL) exactly when the provider has no room, and then nothing changes. Otherwise the state is `Seed`'s: one free chunk at the old arena end, and the list holding only it. |
| Malloc.Allocator.Serve | my_malloc.c:63-69 | The outcome of `getMemory` is kept. The error code becomes NoError exactly when a block comes back. |
| Malloc.Allocator.Sbrk | my_malloc.c:48 | The provider hands out the next 2048 bytes at the arena end while four chunks have not been used. Otherwise it returns NIL and leaves the arena end unchanged. |
| Malloc.Allocator.GetMemory | my_malloc.c:125-252 | `getMemory`, including its recursive retry after growth. The state and pointer are `GetMemorySpec`'s. The error code is set to OutOfMemory only on that outcome, otherwise it is left unchanged. The invariant is kept. |
| Malloc.Allocator.FindFit | my_malloc.c:131-193 | The policy's scan finds the block that `Search` picks, and NIL when none fits. |
| Malloc.Allocator.FirstFitScan | my_malloc.c:131-170 | The size-order scan returns the first listed block that is free and holds the request plus a header, and NIL when none does. |
| Malloc.Allocator.BestFitScan | my_malloc.c:172-193 | The address-order scan starts from the 8193 sentinel and replaces the best only on a strictly smaller size. It returns the block `BestFit` picks with its size, and the sentinel is left untouched exactly when none fits. |
| Malloc.Allocator.TakeBlock | my_malloc.c:135-219 | Handing out the found block leaves exactly `Carve`'s state and keeps the invariant. |
| Malloc.Allocator.CarveBySize | my_malloc.c:135-160 | Size order: the whole block is handed out when `req + 2H + 1 >= B`. Otherwise it is cut to `req + H` bytes in use and the remainder is linked in. The header map and the list are `Carve`'s. |
| Malloc.Allocator.CarveByAddress | my_malloc.c:193-219 | Address order: the block is split when `req + 2H + 1 <= B`, and the remainder's size is computed from `bestSize`. The header map and the list are `Carve`'s. |
| Malloc.Allocator.WriteRemainder | my_malloc.c:147-151 | Writes the remainder's header at a new offset: free, with null links, and not listed. No other header changes. |
| Malloc.Allocator.LinkRemainder | my_malloc.c:209-216 | After the remainder header is written and linked in, the header map and the list are the given targets: the map with the remainder added, and the sorted insert into the old list. |
| Malloc.Allocator.GrowHeap | my_malloc.c:226-250 | When the provider is exhausted it returns NIL and the state is unchanged. Otherwise the new state is `Grow`'s: a free block ending at the old arena end absorbs the chunk, or else the chunk is linked in on its own. |
| Malloc.Allocator.LinkDetached | my_malloc.c:248-250 | Clearing the links of an unlisted block and adding it marks the block free and gives the sorted insert into the list. |
| Malloc.Allocator.RemoveFromFreelist | my_malloc.c:261-292 | The list loses exactly that node and keeps the order of the rest, in all four cases: only node, head, tail and middle. The links of unlisted headers are untouched. |
| Malloc.Allocator.AddToFreeList | my_malloc.c:305-381 | Marks the block free and changes nothing else in the header map. The new list is `Insert` of the block into the old list: after every block whose key is `<=` its own and before the first with a larger key. The key is the size in size order and the address in address order. The head moves only when the block becomes the first node (the corrected line 365). |
| Malloc.Allocator.Free | my_malloc.c:383-393 | Models both `my_free_size_order` and `my_free_addr_order` (395-405). Freeing NULL changes nothing, the error code included. Otherwise the state is `Release`'s and the error code becomes NoError. The invariant is kept. |
| Malloc.Allocator.ReleaseBlock | my_malloc.c:390-391 | Coalescing and then adding the merged block leaves exactly `Release`'s state. |
| Malloc.Allocator.LowestInFreelist | my_malloc.c:419-426 | Returns a listed block with the lowest address in the list. Nothing changes. |
| Malloc.Allocator.HighestInFreelist | my_malloc.c:488-495 | Returns a listed block with the highest address in the list. Nothing changes. |
| Malloc.Allocator.HighestBelow | my_malloc.c:447-462 | When some listed block lies below `ptr`, the loop reports a change and returns the highest such block. Otherwise it reports no change and returns the lowest block, and every listed block lies at or above `ptr`. |
| Malloc.Allocator.FindLeftBlk | my_malloc.c:412-476 | Read-only. It returns NIL exactly when no listed block ends where `ptr` starts, and otherwise the listed block that does. |
| Malloc.Allocator.FindRightBlk | my_malloc.c:481-509 | Read-only. It returns the block starting where `ptr`'s block ends when that block is listed, and NIL otherwise. |
| Malloc.Allocator.MergeLeft | my_malloc.c:554-566 | A listed block ending at the released header absorbs it and is unlinked. The state and the surviving header are `AbsorbLeft`'s. |
| Malloc.Allocator.MergeRight | my_malloc.c:568-573 | The listed block starting where the survivor ends is absorbed into it and unlinked. The state is `AbsorbRight`'s. |
| Malloc.Allocator.CoalesceLeftAndRight | my_malloc.c:553-577 | The state is `AbsorbRight` after `AbsorbLeft`. The result is the merged block's header, with null links and not listed. |
| Malloc.Allocator.GetFreelistSize | my_malloc.c:580-586 | Returns -1 exactly when the list is empty, and otherwise the size of the block at the list's head. |
| Links.LinkedAt | my_malloc.c:261-292 | In a threaded list, each node's `prev` is its predecessor (or null at the head), and its `next` is its successor (or null at the tail). |
| Links.UnlinkKeepsLinked | my_malloc.c:261-292 | Repairing the two neighbours' pointers and the head, as `removeFromFreelist` does, threads exactly the list without that node. |
| Links.LinkInKeepsLinked | my_malloc.c:316-380 | Setting the new node's links and its neighbours' pointers, with the head moving only on an insert at the front, threads exactly the list with the node at position k. |
| Links.LinkInMiddle | my_malloc.c:327-331 | The four pointer writes of a middle insert thread the list with the node inserted, and the head stays. |
| Links.LinkInHead | my_malloc.c:320-324 | The pointer writes of a front insert thread the list with the node first, and it becomes the head. |
| Links.LinkInEnd | my_malloc.c:343-345 | The pointer writes of an append thread the list with the node last. |
| Links.LinkedWalk | my_malloc.c:421-425 | Following `next` from the head of a threaded list meets exactly its nodes, in order. |
| FreeList.FirstFit | my_malloc.c:131-170 | Returns the position of the first block that fits, with no earlier block fitting. It returns None exactly when no block fits. |
| FreeList.BestFit | my_malloc.c:172-193 | Returns the earliest of the smallest fitting blocks below the 8193 sentinel, and None when there is none. |
| FreeList.BestFitUnique | my_malloc.c:176-177 | Ties are broken by list position, so the best fit is unique. |
| FreeList.SizeFirstFitIsBestFit | my_malloc.c:131-135 | On a list sorted by size, the first fit is the best fit. |
| FreeList.EndingAt | my_malloc.c:447-475 | Returns the listed block that ends at x, and None when there is none. |
| FreeList.EndingAtUnique | my_malloc.c:468-471 | In a tiled arena, at most one listed block ends at a given offset. |
| FreeList.InsertPos | my_malloc.c:316-349 | The insert position comes after every block whose key is `<=` the new block's, and before the first block whose key is larger. |
| FreeList.InsertElements | my_malloc.c:305-381 | The inserted list holds exactly the old blocks and the new one. |
| FreeList.InsertPermutes | my_malloc.c:305-381 | The inserted list is a permutation of the old list plus the new block. |
| FreeList.InsertKeepsSorted | my_malloc.c:305-381 | Inserting into a list sorted by the policy's key keeps it sorted. |
| FreeList.InsertKeepsDistinct | my_malloc.c:305-381 | An insert adds no duplicates. |
| FreeList.Without | my_malloc.c:261-292 | Unlinking shortens the list by exactly one. |
| FreeList.WithoutElements | my_malloc.c:261-292 | Removing x leaves every other node and nothing new, and x no longer appears. |
| FreeList.WithoutPermutes | my_malloc.c:261-292 | The unlinked list with x added back holds the same nodes as before, counted with multiplicity. |
| FreeList.WithoutKeepsSorted | my_malloc.c:261-292 | Unlinking a node keeps the list sorted. |
| FreeList.FreeBytesInsert | my_malloc.c:305-381 | An insert adds exactly the block's size to the listed free bytes. |
| FreeList.FreeBytesWithout | my_malloc.c:261-292 | An unlink removes exactly the block's size from the listed free bytes. |
| Blocks.TiledSplit | my_malloc.c:147-155 | Splitting a block at an inner offset keeps the arena tiled, and no block started there before. |
| Blocks.TiledMerge | my_malloc.c:559-573 | Merging a block with the block that starts where it ends keeps the arena tiled. |
| Blocks.TiledGrow | my_malloc.c:226-236 | A fresh chunk at the arena end extends the tiling. |
| Blocks.TiledExtend | my_malloc.c:239-247 | Growing the block that ends at the arena end by the chunk extends the tiling. |
| Blocks.NoStartInside | my_malloc.c:501 | No block starts strictly inside another, so `ptr + size` is the next block. |
| Blocks.SameEndSameBlock | my_malloc.c:468-471 | Two blocks with the same end are the same block. |
| Arena.Search | my_malloc.c:131-193 | The policy's search returns a position whose block fits. |
| Arena.Carve | my_malloc.c:135-219 | The chosen block ends up in use, the arena end is kept, and the list stays within the header map. |
| Arena.TakeWhole | my_malloc.c:139-144 | The whole block is handed out: it is marked in use and unlinked. |
| Arena.TakeSplit | my_malloc.c:147-160 | The block is cut to n bytes in use, and the rest at `o + n` is free and is the one block inserted. |
| Arena.Grow | my_malloc.c:226-250 | Fails exactly when the provider is exhausted. On success, the arena end moves by one chunk and the list is non-empty. |
| Arena.MergeChunk | my_malloc.c:240-250 | A listed block that ends at the old arena end grows by the chunk and is relinked. |
| Arena.FreshChunk | my_malloc.c:235-250 | The chunk is linked in as a free block of its own. |
| Arena.AbsorbLeft | my_malloc.c:556-566 | The surviving block is present and unlisted, and the list stays duplicate-free. |
| Arena.AbsorbRight | my_malloc.c:568-573 | The survivor stays present and unlisted, and the list stays duplicate-free. |
| Arena.Coalesce | my_malloc.c:553-577 | The merged block is present and unlisted. |
| Arena.Release | my_malloc.c:383-393 | The released state's list lies within its header map. |
| Arena.SeedPreservesInv | my_malloc.c:47-62 | Seeding an empty list with a fresh chunk keeps the invariant. |
| Arena.GrowPreservesInv | my_malloc.c:226-250 | When the provider has room, growth succeeds and keeps the invariant: tiled, every free block listed once, sorted, no two adjacent free blocks. |
| Arena.LinkRestoresInv | my_malloc.c:305-381 | Inserting the one unlisted free block into an otherwise complete sorted list restores the invariant. |
| Allocation.SearchFits | my_malloc.c:135-177 | The searched block is listed, free and holds the request. |
| Allocation.CarvePreservesInv | my_malloc.c:135-219 | Carving the chosen block keeps the invariant. |
| Allocation.CarveResult | my_malloc.c:139-217 | The split rule. A whole handout keeps the block's size. A split leaves `req + H` bytes in use and lists a free remainder at `o + req + H` of size `B - req - H`. The block is in use and holds the request either way. |
| Allocation.CarveFreeBytes | my_malloc.c:135-219 | Listed free bytes drop by exactly the size of the block handed out. |
| Allocation.CarveKeepsInUse | my_malloc.c:135-219 | No block already in use changes. |
| Allocation.GrownBlock | my_malloc.c:239-250 | After growth, the block that holds the chunk is listed and ends at the new arena end. |
| Allocation.GrowFreeBytes | my_malloc.c:226-250 | Growth adds exactly one chunk to the listed free bytes. |
| Allocation.GrowKeepsInUse | my_malloc.c:226-250 | Growth changes no block in use. |
| Allocation.RetryAfterGrowthSucceeds | my_malloc.c:251 | After growth, the retried search finds a block for any request that fits in one chunk. |
| Service.GetMemoryPreservesInv | my_malloc.c:125-252 | `getMemory` keeps the invariant. |
| Service.HitServes | my_malloc.c:135-219 | On a hit, the returned pointer is `H` past a block that was not in use and now is in use, holding the request. Other in-use blocks are kept. Free bytes plus the handed-out block are conserved. |
| Service.GetMemoryOutcome | my_malloc.c:125-252 | `getMemory` fails exactly when the search misses and the provider is exhausted. Failure returns NIL with the state unchanged. Success serves the request. A hit keeps the arena end, and a miss that succeeds grows it by one chunk. |
| Service.GrowServes | my_malloc.c:226-251 | A miss with room to grow is served after one growth. |
| Service.AllocatePreservesInv | my_malloc.c:33-108 | Allocation keeps the invariant. |
| Service.AllocateOutcome | my_malloc.c:33-108 | SingleRequestTooLarge exactly when `req + H > 2048`. OutOfMemory exactly when the request fits but nothing fits and the provider is exhausted. Any error leaves the state unchanged and returns NIL. Success serves the request. |
| Service.SeedServes | my_malloc.c:47-63 | A seeded list always serves a request that fits in a chunk. |
| Freeing.ReleasePreservesInv | my_malloc.c:383-405 | Release keeps the invariant. In particular, no two free blocks are left adjacent. |
| Freeing.ReleaseFreeBytes | my_malloc.c:383-405 | Release adds exactly the freed block's size to the listed free bytes. |
| Freeing.ReleaseKeepsOthers | my_malloc.c:553-577 | Release touches no other block in use and keeps the arena end. The merged block is free and listed. |
| Freeing.ReleaseMergeStart | my_malloc.c:556-566 | The merged block starts at the freed header, unless a listed block ends there, in which case it starts at that block. |
| Freeing.ReleaseMergeEnd | my_malloc.c:568-573 | The merged block ends where the freed block ended, or, if the block starting there was listed, where that block ended. |
| Freeing.HitThenRelease | my_malloc.c:135-219 | Allocating `req` bytes from a listed block and freeing them at once gives back the same headers, the same listed blocks (as a multiset) and the same arena end. A split remainder merges back on the right, and nothing merges on the left. |
| Freeing.AllFreeIsOneBlock | my_malloc.c:383-405 | When no block is in use, the list is the single block at 0, spanning the whole arena. |
| Service.AllocateTooLarge | my_malloc.c:41-44 | A too-large request fails with SingleRequestTooLarge and changes nothing. |
| Service.AllocateExhausted | my_malloc.c:53-55 | With an empty list and an exhausted provider, allocation fails with OutOfMemory and changes nothing. |
| Service.AllocateSeeded | my_malloc.c:47-63 | With an empty list and room, allocation serves the request from the seeded list. |
| Service.AllocateListed | my_malloc.c:63 | With a non-empty list, allocation is `getMemory`. |
| Service.GetMemoryResult | my_malloc.c:63-69 | Serving fails only with OutOfMemory, and exactly when the pointer is NIL. |
| Service.GetMemoryHit | my_malloc.c:135-219 | On a search hit, `getMemory` carves that block and returns its header plus `H`. |
| Service.GetMemoryRetry | my_malloc.c:226-251 | On a miss with room, `getMemory` is the same request on the grown arena. |
| Service.GetMemoryExhausted | my_malloc.c:231-234 | On a miss with the provider exhausted, the result is OutOfMemory, NIL, and the state unchanged. |
| Findings.AsWrittenAddressLink | my_malloc.c:349-380 | The address-order pointer updates as written, one branch of the source per branch. The head becomes the new block on every insert except an append. |
| Findings.AsWrittenLosesPrefix | my_malloc.c:360-366 | As written, a middle insert leaves a list that, walked from the head, is the new block followed by the blocks after it. Every block before it is lost. |
| Findings.CorrectedKeepsAll | my_malloc.c:360-366 | With the same pointer writes and the head left in place, the walk from the head is exactly `Insert`'s list. |
| Findings.CutFromOnly | my_malloc.c:172-219 | In address order, 76 bytes asked of a consistent arena whose only listed block is large enough cut 100 bytes from its front. The remainder is the only listed block, and the invariant holds. |
| Findings.FirstCut | my_malloc.c:47-63 | The first request of 76 bytes seeds a fresh arena with one 2048-byte chunk and cuts the block at 0 from it. |
| Findings.SecondCut | my_malloc.c:193-219 | The second request cuts the block at 100 from the listed rest. |
| Findings.ThirdCut | my_malloc.c:193-219 | The third request cuts the block at 200. |
| Findings.FourthCut | my_malloc.c:193-219 | The fourth request cuts the block at 300. |
| Findings.FifthCut | my_malloc.c:193-219 | The fifth request cuts the block at 400, leaving the rest at 500 as the only listed block. |
| Findings.FreeFirst | my_malloc.c:395-405 | free(24) lists block 0 ahead of the block at 500. It has no free neighbour, and the invariant holds. |
| Findings.FreeFifth | my_malloc.c:395-405 | free(424) merges block 400 with the free rest at 500, giving a listed block at 400. The list is 0, 400, and the invariant holds. |
| Findings.LostBlockExample | my_malloc.c:365 | On the arena this run reaches, a consistent state, free(224) merges with neither neighbour. The model's release lists block 200 at position 1, between 0 and 400. Applied to the same list and position, the source's pointer writes leave a list whose walk from the head is 200, 400, without block 0. |
| Freeing.ReleaseIs | my_malloc.c:395-405 | When nothing merges on its left, releasing an in-use block equals the state that merges its right neighbour, marks it free and lists it. That state keeps the invariant. |
| Scenarios.FirstAllocation | test.c:266 | A fresh size-order allocator serves 1500 bytes at offset 24. It splits the first chunk into 1524 bytes in use and a free 524-byte remainder. |
| Scenarios.SecondAllocation | test.c:267 | Then 1 byte is carved from the remainder, leaving a free 499-byte block. |
| Scenarios.ThirdAllocation | test.c:268 | Then 475 bytes take the 499-byte block whole: with its header the request fills it exactly (475 + H = 499), so no bytes are left over. |
| Scenarios.FirstRelease | test.c:269 | Freeing the 475-byte block relinks it alone, since no neighbour is free. |
| Scenarios.SecondRelease | test.c:270 | Freeing the 1500-byte block lists it after the smaller 499-byte block. |
| Scenarios.GrowthMerges | test.c:271-272 | 1600 bytes do not fit. The new chunk merges into the block ending at the arena end, and the list head is then the 1524-byte block, not a 499-byte one. |
| Scenarios.RetryServes | test.c:271 | The retried search serves the 1600 bytes from the grown block. |
| Scenarios.OneChunk | my_malloc.c:139-144 | Under either policy, 2016 bytes asked of an empty free list take a whole fresh chunk at the arena end. 8 spare bytes cannot hold a split, the list stays empty, and the invariant holds afterwards. |
| Scenarios.FourChunks | test.c:79-91 | Under either policy, four requests of 2016 bytes each take a whole chunk. A fifth fails with OutOfMemory, returns NIL and changes nothing. |

## Left out

- `my_sbrk` is not part of this model, and neither is `my_malloc.h`. The provider is modelled as a bump allocator with room for four chunks (8192 bytes). It returns NIL once the arena is full.
- Fresh provider memory: the C code relies on a new chunk's links already being null. The model writes null links when it seeds the list, and `LinkDetached` clears them before growth links the chunk in.
- Payload bytes are not modelled. Only headers are, as offsets into the arena.
- The widths of `size_t` and the 16-bit `short` size field are not modelled, and neither is their overflow. Blocks never exceed 8192 bytes, which fits in a `short`.
- The self-assignments at my_malloc.c:179-181 and 195-197 copy a header's fields onto themselves. They change nothing and are omitted.
- `DEBUG_PRINT`, thread safety, alignment and `realloc` are not modelled.
- Policy: the C code sets the global `sortBy` on each call. The model fixes the policy per `Allocator` (`const policy`), so the two entry points of each operation share one method. Mixing policies on one list, which the source allows, is not modelled.
- `addToFreeList` has one loop per policy. The model has one loop that compares the policy's `Key` (the size or the address) with the same strict `>` test.
- A header absorbed by a merge is removed from the header map. The C code leaves its stale bytes in place.
- The source checks that a found neighbour has `in_use == 0` (my_malloc.c:240, 559, 570). The model keeps these checks, but under the invariant every listed block is free, so they always hold.
- `coalesceLeftAndRight` returns the merged block's header, as the code does. The comment above it says it returns the user pointer.
- Growth in address order follows the code, which merges exactly as in size order. The comment at test.c:263-265 calls that merge irrelevant for address order.
- Some loops and branches of the source are separate methods in the model, to keep the proofs small: the list scans, the two carves, growth, seeding, the serve step, `HighestBelow` and `ReleaseBlock`.
- `LinkRemainder`'s ghost target parameters only name the expected state. They do not constrain the code.
- `Malloc.Allocator.GetMemory` requires a non-empty free list, as the source's precondition at my_malloc.c:118-119 does.

## Findings

| source | as written | input that shows it | evidently intended | confidence | as-written member | corrected member |
|---|---|---|---|---|---|---|
| my_malloc.c:365 | In address order, an insert between two listed blocks also sets `freelist = addThis`, so the new block becomes the list head. | In address order from a fresh arena: five requests of 76 bytes, then free(24) and free(424). This leaves free blocks at 0 and 400 and blocks in use at 100, 200 and 300. Then free(224): block 200 merges with neither neighbour and goes between 0 and 400. The list walked from the head is then 200, 400, and the free block at 0 is lost. | The head stays where it is, and the list becomes 0, 200, 400. | not executed | Findings.AsWrittenAddressLink (shown by Findings.AsWrittenLosesPrefix and Findings.LostBlockExample) | Malloc.Allocator.AddToFreeList (with FreeList.Insert and Findings.CorrectedKeepsAll) |
