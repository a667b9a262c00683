# A verified model of the B+ tree, the allocator and the key matcher

The project models five self-contained algorithmic parts of the repository and proves what they promise.

* **The STX B+ tree** (`AOS/stx/btree.h`). `BTreeObject` is the tree object: a heap of node objects reached through
  `root`, the doubly linked chain of leaves, and the statistics. Insertion with splits, deletion with merges and shifts
  on both levels, the queries, the iterators, `clear`, assignment, `dump`/`restore` and `verify` are methods over that
  heap. Next to them stand the same algorithms on tree values (`BTreeInsert`, `BTreeErase`), the proofs about those
  (`BTreeRepair`, `BTreeEraseProof`), and the lemmas that carry a value-level result over to the heap of nodes
  (`BTreeHeap*`, `BTreeWhole`). The slot capacities are parameters (at least 4), and so is whether equal keys are kept.
* **dlmalloc's core** (`AOS/aos/malloc.c.h`, in the mspace configuration). `MSpace` is one `malloc_state` with the
  memory of its segment: heads and feet of chunks, small bins, tree bins, bitmaps, designated victim and top.
  `mspace_malloc`, `mspace_free`, `internal_memalign` and `ialloc` are methods over it. The pure side is the tiling of
  the segment by chunks (`Tiles`), the bins as a set of free chunks (`BinLists`), the bit tries (`TreeBin`,
  `TreeSearch`), the index arithmetic on machine words (`TreeIndex`, `BinMap`, `TreeFit`), and one step of the whole
  heap (`HeapSpace`). `SmallLinks` and `TreeLinks` are the bins as they lie in memory, with the words `fd`, `bk`,
  `parent` and `child` of the free chunks; the macros that insert and unlink are proved to do to the words what the
  functions of `BinLists` and `TreeBin` do to lists and tries. `HeapRun` is about whole programs that use a heap.
* **nedmalloc's thread cache** (`AOS/aos/nedmalloc.cpp`): `ThreadCache`, with doubly linked bins threaded through the
  cached blocks (`CacheList`) and the branch-free bin index (`BinIndex`). `PoolRun` puts the cache in front of the heap:
  `nedpmalloc` and `nedpfree`, and whole programs that use them.
* **Two concurrent protocols** as state machines with one memory access a step: the recursive spin lock (`SpinLock`)
  and the growing pool of arenas (`ArenaPool`).
* **The multi-pattern matcher** (`AOS/aos/String_Matcher.cpp`): the trie of keys and the list of live matches
  (`StringMatcher`).

Throughout, a method that changes state is tied by its `ensures` to a function of the old state, and what the source
promises is proved about that function or as an invariant that every method keeps: `BTreeObject.Valid` says what
`verify` checks, `MSpace.Valid` says what the `do_check_*` functions check, the end of the segment included.

Where the code and its own text disagree, the code is followed:

* The comment above `find_lower` speaks of the first key less than or equal to the probe (`AOS/stx/btree.h:1500-1503`).
  The code returns the number of keys that are less, and that is what `BTreeSlots.FindLower` states.
* A comment in the deletion of the last pair speaks of `insert_start` (`AOS/stx/btree.h:2469`); it is `erase_one` that
  lowers the item count afterwards.

Three promises fail on some inputs, and the exact conditions are proved:

* `ialloc` adds up chunk sizes in words without a check (`AOS/aos/malloc.c.h:4499-4518`). The sum is right if and only
  if the true total is below 2^64 (`CoAlloc.AggregateSize`); two elements of 2^63 bytes are taken for 32 bytes
  (`CoAlloc.TwoHalvesWrap`). Below that bound the call does what it promises (`CoAlloc.Ialloc`), and at or above it no
  heap can hold what was asked for (`CoAlloc.NoHeapHolds`).
* The loop of `internal_memalign` that rounds up the alignment ends if and only if the alignment is at most 2^63
  (`MemAlign.LoopEnds`, `MemAlign.LoopNeverEnds`).
* `restore` answers true for an image that ends early, as soon as one node could be read. The tree is then valid if and
  only if nothing was cut off; otherwise some node lacks a child (`BTreeObject.Restore`, `BTreeObject.HoleNotValid`).

Two spots in the code look doubtful and are proved right:

* `erase_one_descend` hands down a left cousin that is not the nearest one (`AOS/stx/btree.h:2536`). In every branch
  the nodes that are merged or shifted are nevertheless adjacent children of one parent (`BTreeEraseProof.ChooseSound`).
* A full inner node is cut before the new child is added, and the cut is moved when the child would fall into the
  smaller half. Separators and children come out as if the child had been added first (`BTreeInsert.CutAndPutIsWide`).

## Model

| member | source | states |
|---|---|---|
| BTreeObject.BTreeObject.Perform | AOS/stx/btree.h:2008-2369 | any sequence of insert, erase_one and erase calls keeps the tree valid, refines an ordered multimap call by call, keeps keys sorted (strictly without duplicates), and leaves each key as often as the calls say |
| BTreeObject.BTreeObject.Insert | AOS/stx/btree.h:2008-2046 | adds exactly the pair; its place is the upper bound within the leaf that the lower-bound descent reaches, and it is behind all pairs with keys not greater if and only if the pair behind it has another key; the iterator stands on it; with the key present in a tree without equal keys nothing changes, false is returned and the iterator stands on the present pair |
| BTreeObject.BTreeObject.InsertDescend | AOS/stx/btree.h:2054-2190 | the node heap, the leaf chain and the counts after the descent are those of the value-level insertion, split node included |
| BTreeObject.BTreeObject.SplitLeafNode | AOS/stx/btree.h:2194-2230 | the upper half moves to a new leaf linked right behind, and the separator is the last key that stays |
| BTreeObject.BTreeObject.SplitInnerNode | AOS/stx/btree.h:2234-2285 | the cut depends on where the child is to be added; separators and children are divided without loss |
| BTreeObject.BTreeObject.EraseOne | AOS/stx/btree.h:2335-2356 | removes exactly the first pair with the key, all others stay in order; false if and only if no pair has it; the tree stays valid |
| BTreeObject.BTreeObject.Erase | AOS/stx/btree.h:2358-2369 | removes all pairs with the key and returns their number |
| BTreeObject.BTreeObject.EraseDescend | AOS/stx/btree.h:2400-2675 | the heap after the recursive deletion is that of the value-level deletion, with the freed nodes gone and all others kept |
| BTreeObject.BTreeObject.MergeLeaves | AOS/stx/btree.h:2677-2705 | all pairs of the right leaf end up in the left one, which takes over its place in the chain |
| BTreeObject.BTreeObject.MergeInner | AOS/stx/btree.h:2708-2750 | the separator comes down between the children of both nodes |
| BTreeObject.BTreeObject.ShiftLeftLeaf | AOS/stx/btree.h:2755-2800 | the leaves are levelled from the right and the separator is the new last key of the left leaf |
| BTreeObject.BTreeObject.ShiftLeftInner | AOS/stx/btree.h:2802-2860 | children move left through the separator, which is replaced by the one left over |
| BTreeObject.BTreeObject.ShiftRightLeaf | AOS/stx/btree.h:2862-2914 | the leaves are levelled from the left and the separator is the new last key of the left leaf |
| BTreeObject.BTreeObject.ShiftRightInner | AOS/stx/btree.h:2916-2970 | children move right through the separator, which is replaced by the one left over |
| BTreeObject.BTreeObject.Exists | AOS/stx/btree.h:1627-1645 | true if and only if some pair has the key |
| BTreeObject.BTreeObject.Find | AOS/stx/btree.h:1648-1690 | stands on the first pair with the key, or on the end if there is none |
| BTreeObject.BTreeObject.Count | AOS/stx/btree.h:1692-1722 | the number of pairs with the key, counted along the leaf chain across leaves |
| BTreeObject.BTreeObject.LowerBound | AOS/stx/btree.h:1725-1744 | stands behind exactly the pairs with smaller keys; the end only if there is no other |
| BTreeObject.BTreeObject.UpperBound | AOS/stx/btree.h:1767-1786 | stands behind exactly the pairs with keys not greater; the end only if there is no other |
| BTreeObject.BTreeObject.Walk | AOS/stx/btree.h:1443-1455 | from begin to end along the chain, each pair once and in order |
| BTreeObject.BTreeObject.NextThenPrev | AOS/stx/btree.h:475-548 | decrementing undoes incrementing |
| BTreeObject.BTreeObject.VerifyLeafLinks | AOS/stx/btree.h:3157-3194 | on every valid tree the walk along the chain makes every assertion hold and counts the items |
| BTreeObject.BTreeObject.VerifyPasses | AOS/stx/btree.h:3053-3155 | on every valid tree all assertions of verify and verify_node hold: keys, fill, separators, leaf links across children, and the three counts |
| BTreeObject.BTreeObject.Clear | AOS/stx/btree.h:1396-1436 | every node is freed, each exactly once, and an empty valid tree is left |
| BTreeObject.BTreeObject.CopyRecursive | AOS/stx/btree.h:1905-1945 | the copy has new nodes, the same shape, keys and pairs, and its leaves are appended to the chain in order |
| BTreeObject.BTreeObject.CopyFrom | AOS/stx/btree.h:1864-1884 | assignment gives a valid tree with the other's shape and pairs, and leaves the other tree as it was |
| BTreeObject.BTreeObject.Dump | AOS/stx/btree.h:3270-3281 | the image is the header, the item count and the pre-order of the nodes |
| BTreeObject.BTreeObject.RestoreNode | AOS/stx/btree.h:3351-3405 | from the records that are there: if all records of a subtree are, it is built in new nodes with its shape and pairs, and the stale leaf links of the image are overwritten so that the chain is right; if none is, null comes back; if some are, a node below has a null child |
| BTreeObject.BTreeObject.Restore | AOS/stx/btree.h:3287-3319 | undoes dump: a matching header gives a valid tree of the same shape and pairs, any other header is refused and nothing changes; an image that is cut short is refused only if no node is left, with an empty tree, and otherwise accepted with a tree that is not valid |
| BTreeObject.BTreeObject.HoleNotValid | AOS/stx/btree.h:3351-3405 | a tree with a null child where a node should be is not valid |
| BTreeHistory.RunFacts | AOS/stx/btree.h:2008-2369 | over a whole history of multimap steps order is kept and the multiset of keys is what the calls say |
| BTreeInsert.InsertCorrect | AOS/stx/btree.h:2054-2190 | the descent adds the pair at its place in the contents, keeps fill, uniform depth, order and exact separators, and splits at most the topmost node of what it returns |
| BTreeInsert.InsertLeafCorrect | AOS/stx/btree.h:2143-2188 | a leaf takes the pair, or splits and the right half takes it, with the separator exact in each case |
| BTreeInsert.SplitLeafCorrect | AOS/stx/btree.h:2143-2230 | both halves of a split leaf are legal and, put together, are the old pairs with the new one in place |
| BTreeInsert.InsertInnerCorrect | AOS/stx/btree.h:2059-2141 | adding the split child keeps an inner node legal, or cuts it into two legal ones |
| BTreeInsert.CutAndPutIsWide | AOS/stx/btree.h:2076-2138 | cutting first and adding the child to one half gives the same separators and children as adding first and cutting then, wherever the cut is moved |
| BTreeEraseProof.EraseBelowCorrect | AOS/stx/btree.h:2400-2675 | the recursive deletion never gets stuck, loses exactly the first pair with the key, keeps all below the parent legal, and reports the new last key to the ancestors whenever the last pair went (whether or not the key is another one) |
| BTreeEraseProof.ChooseSound | AOS/stx/btree.h:2474-2517 | in every underflow branch the two nodes merged or shifted are adjacent children of one and the same parent |
| BTreeEraseProof.RepairCorrect | AOS/stx/btree.h:2584-2668 | after the repair no node is short or over-full, nothing is lost or duplicated, and an emptied node is dropped from its parent |
| BTreeEraseProof.RenewCorrect | AOS/stx/btree.h:2568-2582 | a changed last key goes into the one separator that needs it |
| BTreeRepair.MergeCorrect | AOS/stx/btree.h:2677-2750 | two few-filled siblings fit into one legal node with the same contents |
| BTreeRepair.TakeFromRightCorrect | AOS/stx/btree.h:2755-2860 | levelling from the right restores the fill of both nodes and keeps contents and separator |
| BTreeRepair.TakeFromLeftCorrect | AOS/stx/btree.h:2862-2970 | levelling from the left restores the fill of both nodes and keeps contents and separator |
| BTreeSlots.FindLower | AOS/stx/btree.h:1505-1549 | the number of keys less than the probe |
| BTreeSlots.FindUpper | AOS/stx/btree.h:1552-1595 | the number of keys not greater than the probe |
| BTreeSearch.DescendLower | AOS/stx/btree.h:1725-1744 | the child chosen by the separators holds the lower bound of the whole row |
| BTreeSearch.DescendUpper | AOS/stx/btree.h:1767-1786 | the child chosen by the separators holds the upper bound of the whole row |
| BTreeSearch.KidHasKey | AOS/stx/btree.h:1627-1645 | a key is in the tree if and only if it is in the child that the descent takes |
| BTreeCursor.OneIterator | AOS/stx/btree.h:366-369 | a position has exactly one iterator that points at a pair |
| BTreeCursor.InsertStands | AOS/stx/btree.h:2054-2190 | the leaf and slot that the descent records stay right when nodes above are split |
| BTreeCursor.PositionPlaced | AOS/stx/btree.h:2054-2190 | the place that the descent and the split of the leaf give is the upper bound within the leaf, or the half leaf, in which the lower bound of the whole lies |
| BTreeCursor.PlaceIsUpper | AOS/stx/btree.h:2054-2190 | that place is the upper bound of the whole if and only if the next pair has another key |
| BTreeCursor.BetweenEqualKeys | AOS/stx/btree.h:2143-2188 | with equal keys in two leaves the third one goes between them, not behind both |
| BTreeVerify.PassesIsValid | AOS/stx/btree.h:3075-3155 | the assertions of verify_node, walking the nodes one by one, hold if and only if the tree is legal and ordered |
| BTreeLinks.ChainPassesLinks | AOS/stx/btree.h:3129-3152 | the checks of verify_node on neighbouring leaves hold on the chain of all leaves |
| BTreeLinks.CountsAgree | AOS/stx/btree.h:3058-3064 | counting node by node gives the statistics |
| BTreeImage.SameFacts | AOS/stx/btree.h:1905-1945 | trees of the same shape in different nodes have the same contents, height, leaf count and node count |
| KeyOrder.RankEmbeds | AOS/stx/btree.h:1330-1356 | the keys of any run, under any strict total order, embed in the integers, so that the order of the model is no restriction |
| HeapRuns.Perform | AOS/aos/malloc.c.h:5045-5258 | any sequence of malloc, memalign, independent_calloc or comalloc, and free calls: after each call the program holds what the calls say, each block with the bytes asked for, aligned, within the memory obtained from the system so far and apart from all others; that memory never shrinks |
| MSpaces.MSpace.Malloc | AOS/aos/malloc.c.h:5045-5157 | a new aligned block with at least the bytes asked for, apart from all others; null if and only if nothing in the heap is big enough and the system gives nothing, and then the heap is as before; the segment grows only when nothing in it is big enough, and by exactly what the system was asked for |
| MSpaces.MSpace.Free | AOS/aos/malloc.c.h:5159-5258 | exactly the block's chunk is no longer used and the segment is the same, which decides every free chunk and top; all other blocks stay |
| MSpaces.MSpace.UsableSize | AOS/aos/malloc.c.h:5395-5402 | the bytes that a block really has, at least those asked for |
| MSpaces.MSpace.FreeChunk | AOS/aos/malloc.c.h:5173-5250 | all branches of the consolidation give the one heap in which just this chunk is free within the same segment, with the run-time checks of the code shown to pass |
| MSpaces.MSpace.TmallocLarge | AOS/aos/malloc.c.h:4187-4255 | null if and only if no tree chunk fits or the victim fits at least as tightly; else the least tree chunk that fits, taken whole or split with the rest binned |
| MSpaces.MSpace.TmallocSmall | AOS/aos/malloc.c.h:4258-4293 | the least tree chunk of all, taken whole or split with the rest as the new victim |
| MSpaces.MSpace.SysAlloc | AOS/aos/malloc.c.h:3871-4067 | null if and only if the system gives no more memory right behind the segment; else the segment has grown by exactly the bytes asked of the system and the block comes from the enlarged top |
| MSpaces.MSpace.constructor | AOS/aos/malloc.c.h:4947-4968 | the first heap is sound, has no block, and top and its foot reach exactly to the end of the region |
| HeapSpace.BlocksApart | AOS/aos/malloc.c.h:3098-3144 | in a sound heap blocks handed out are aligned and do not overlap |
| HeapSpace.BlockInside | AOS/aos/malloc.c.h:3064-3083 | every block lies in the segment, before the foot of top |
| HeapSpace.ReturnedDecides | AOS/aos/malloc.c.h:5173-5250 | the used chunks and the segment decide which chunks are free after a free and where top begins, however they were merged |
| HeapSpace.HandedDecides | AOS/aos/malloc.c.h:5045-5157 | the same after an allocation |
| HeapSpace.TakeWhole | AOS/aos/malloc.c.h:4241-4243 | taking a binned chunk whole keeps the heap sound |
| HeapSpace.TakeSplit | AOS/aos/malloc.c.h:4241-4248 | splitting a binned chunk and binning the rest keeps the heap sound |
| HeapSpace.TakeSplitDv | AOS/aos/malloc.c.h:3473-3482 | splitting a binned chunk and making the rest the victim, with the old victim binned, keeps the heap sound |
| HeapSpace.FreeToBin | AOS/aos/malloc.c.h:5224-5248 | a freed chunk merged with its free neighbours and binned keeps the heap sound |
| HeapSpace.FreeToDv | AOS/aos/malloc.c.h:5193-5232 | a freed chunk merged into the victim keeps the heap sound |
| HeapSpace.FreeToTop | AOS/aos/malloc.c.h:5206-5217 | a freed chunk merged into top keeps the heap sound |
| Tiles.ExactlyOneChunk | AOS/aos/malloc.c.h:3064-3083 | every address of the segment before the foot of top lies in exactly one chunk |
| Tiles.UsedDecides | AOS/aos/malloc.c.h:3057-3146 | as no two free chunks touch, the used chunks decide the free ones and top |
| Tiles.OccupyKeeps | AOS/aos/malloc.c.h:2906-2942 | setting a chunk in use keeps the tiling and the bits of its neighbours right |
| Tiles.SplitKeeps | AOS/aos/malloc.c.h:4245-4246 | cutting a free chunk into a used and a free one keeps the tiling |
| Tiles.SplitTopKeeps | AOS/aos/malloc.c.h:5137-5147 | cutting a used chunk from top keeps the tiling |
| Tiles.JoinKeeps | AOS/aos/malloc.c.h:5176-5236 | joining a chunk with its free neighbours keeps the tiling, with no two free chunks touching |
| Tiles.ToTopKeeps | AOS/aos/malloc.c.h:5206-5217 | joining a chunk with top keeps the tiling |
| BinLists.InsertFiled | AOS/aos/malloc.c.h:3414-3536 | filing a chunk adds exactly it to the binned chunks, in the bin its size selects, and keeps both bitmaps exact |
| BinLists.UnlinkFiled | AOS/aos/malloc.c.h:3433-3634 | unlinking takes exactly that chunk from the binned ones and keeps both bitmaps exact |
| SmallLinks.LinkedBin.Insert | AOS/aos/malloc.c.h:3414-3430 | on the words: the ring through the bin's header gets the chunk in front; an unmarked bin begins a new ring whatever its words were |
| SmallLinks.LinkedBin.Unlink | AOS/aos/malloc.c.h:3433-3450 | on the words: the ring is closed without the chunk, or the mark is cleared exactly when it was the only one |
| SmallLinks.LinkedBin.UnlinkFirst | AOS/aos/malloc.c.h:3453-3467 | on the words: the same for the first chunk, found through the header |
| TreeBin.InsertKeeps | AOS/aos/malloc.c.h:3487-3536 | insertion keeps the bit trie and adds exactly the chunk |
| TreeBin.UnlinkKeeps | AOS/aos/malloc.c.h:3555-3624 | unlinking keeps the bit trie and removes exactly the chunk, be it one of many of its size or a node that a leaf below must replace |
| TreeBin.ReplaceKeeps | AOS/aos/malloc.c.h:3569-3583 | the rightmost leaf below can stand in for any interior node |
| TreeLinks.LinkedBin.Insert | AOS/aos/malloc.c.h:3487-3536 | on the words fd, bk, parent and child: the loop along the bits of the size, the new child or the new ring member, and the root of an unmarked bin give in memory the trie of the value-level insertion |
| TreeLinks.LinkedBin.Unlink | AOS/aos/malloc.c.h:3555-3624 | on the words: ring member, first of its ring with another taking over place and children, inner node replaced by the leaf found below, and last leaf; in memory lies the trie of the value-level unlinking, and the mark is cleared exactly when it is empty |
| TreeLinks.LinkedBin.Place | AOS/aos/malloc.c.h:3501-3519 | the loop ends at the node of the size, or above the one null child where the size belongs |
| TreeLinks.LinkedBin.TakeLeaf | AOS/aos/malloc.c.h:3569-3583 | the loop goes right where it can and cuts off the leaf that the value-level replacement names |
| TreeLinks.Regraft | AOS/aos/malloc.c.h:3585-3595 | a change at the end of a path and in the one child word that leads there changes just that subtree |
| TreeLinks.MovedIs | AOS/aos/malloc.c.h:3598-3620 | the node that takes over parent and children of another one is linked like it, and its new children point back |
| TreeBin.PathMinIsLeast | AOS/aos/malloc.c.h:4226-4233 | the least size of a trie is on its leftmost path |
| TreeBin.DepthBound | AOS/aos/malloc.c.h:3501-3519 | a descent ends within the number of size bits |
| TreeFit.SignBit | AOS/aos/malloc.c.h:4195-4213 | the sign bit of the shifted request is the size bit on which the trie branches |
| TreeSearch.Descend | AOS/aos/malloc.c.h:4195-4214 | the descent keeps the best fit seen, and the deepest untaken right subtree holds the least of all larger sizes |
| TreeSearch.Smallest | AOS/aos/malloc.c.h:4226-4233 | the leftmost path finds the least fitting chunk of a subtree |
| BinSearch.FindLarge | AOS/aos/malloc.c.h:4187-4233 | true best fit over all tree bins, with the rest computed in unsigned words |
| BinSearch.FindSmallest | AOS/aos/malloc.c.h:4258-4273 | the least chunk of all tree bins |
| TreeIndex.ComputeIndex | AOS/aos/malloc.c.h:2734-2750 | the branch-free code gives, for every word, twice the floor logarithm plus the next bit |
| TreeIndex.Partition | AOS/aos/malloc.c.h:2762-2765 | a large size lies between the least size of its bin and that of the next, so that the bins partition the sizes |
| TreeIndex.BinOrder | AOS/aos/malloc.c.h:2762-2765 | a chunk in a higher bin is larger than every chunk in a lower one |
| TreeIndex.SharedBits | AOS/aos/malloc.c.h:2753-2760 | the sizes of one bin share all bits above its shift |
| BinMap.BitIndexInverts | AOS/aos/malloc.c.h:2821-2831 | compute_bit2idx inverts idx2bit |
| BinMap.FirstBinIsFirst | AOS/aos/malloc.c.h:2783-2831 | the index of the least bit is the first marked bin |
| BinMap.FirstAbove | AOS/aos/malloc.c.h:2786-2831 | the least bit of left_bits is the first marked bin above |
| BinMap.PairAt | AOS/aos/malloc.c.h:5059-5063 | the two low bits of the shifted map select the bin of the size or the next one |
| MemAlign.Memalign | AOS/aos/malloc.c.h:4368-4451 | the block is aligned to the rounded alignment and has the bytes asked for; all that was taken beyond it has been given back and no other block changed; null if and only if the request is too big or the heap and the system cannot serve the padded request |
| MemAlign.RoundAlignment | AOS/aos/malloc.c.h:4371-4377 | the least power of two that is at least the alignment and the least chunk |
| MemAlign.LoopEnds | AOS/aos/malloc.c.h:4373-4377 | in machine words the doubling loop ends if and only if the alignment is at most 2^63; with 2^63 + 1 it does not |
| MemAlign.SingleIsPower | AOS/aos/malloc.c.h:4373-4373 | the bit test holds exactly for powers of two |
| MemAlign.AlignedSpot | AOS/aos/malloc.c.h:4393-4410 | there is always an aligned spot that leaves room for a legal leader |
| CoAlloc.Ialloc | AOS/aos/malloc.c.h:4455-4580 | if the total of the chunk sizes is below 2^64: new, different blocks of the sizes asked for in adjacent chunks of just the sizes needed, the pointer array right behind them; or nothing at all, if and only if the heap and the system cannot serve the total |
| CoAlloc.AggregateSize | AOS/aos/malloc.c.h:4480-4519 | the sum computed in words is the true total if and only if that is below 2^64 |
| CoAlloc.TwoHalvesWrap | AOS/aos/malloc.c.h:4510-4519 | two elements of 2^63 bytes add up to 32 |
| CoAlloc.NoHeapHolds | AOS/aos/malloc.c.h:4544-4560 | no heap holds, in adjacent chunks, an order whose true total is 2^64 or more |
| CoAlloc.SplitAll | AOS/aos/malloc.c.h:4544-4560 | the pieces exhaust the chunk: all but the last are exact, and the last takes what is left |
| ThreadCaches.ThreadCache.Free | AOS/aos/nedmalloc.cpp:473-540 | the block goes to the front of its bin; if the cache reaches its limit then, exactly the blocks from one age on go, and afterwards less than the limit is cached |
| ThreadCaches.ThreadCache.Malloc | AOS/aos/nedmalloc.cpp:375-460 | the newest block of the best bin or of the next, never smaller than the request or its rounding; null if both are empty |
| ThreadCaches.ThreadCache.ReleaseFreeInCache | AOS/aos/nedmalloc.cpp:461-472 | exactly the blocks freed at least `age` frees ago go, where `age` is the first of 64, 32, down to 1 that brings the cache below the limit; below the limit nothing changes |
| ThreadCaches.CutDecides | AOS/aos/nedmalloc.cpp:286-323 | the age decides what is left of every bin |
| ThreadCaches.ThreadCache.RemoveCacheEntries | AOS/aos/nedmalloc.cpp:286-323 | exactly the blocks of at least the age are given back, each bin keeps the younger ones in order, and the count of cached bytes stays exact |
| ThreadCaches.ThreadCache.Destroy | AOS/aos/nedmalloc.cpp:324-345 | nothing stays cached, and all blocks ever cached have been given back, each once |
| ThreadCaches.OnlyNewest | AOS/aos/nedmalloc.cpp:461-472 | at age one at most one block, the newest, is cached |
| ThreadCaches.OtherRoom | AOS/aos/nedmalloc.cpp:286-540 | the cache depends on no address but those of cached blocks, so that the heap may hand out all others again |
| PoolRuns.Perform | AOS/aos/nedmalloc.cpp:771-855 | any sequence of nedpmalloc and nedpfree calls through cache and heap: after each call the program holds what the calls say, each block as large as asked for, aligned, within the segment and apart from all others; when the cache is destroyed in the end, the heap has handed out what is held and nothing else |
| PoolRuns.PoolMalloc | AOS/aos/nedmalloc.cpp:771-789 | a block that nobody holds, from the cache or from the heap; every block that the heap has handed out stays held or cached and never both, and less than the limit is cached |
| PoolRuns.PoolFree | AOS/aos/nedmalloc.cpp:840-855 | the block goes to the cache or to the heap by its usable size, and what the cache lets go of is freed once; what `PoolMalloc` keeps is kept |
| PoolRuns.PoolDestroy | AOS/aos/nedmalloc.cpp:324-345 | all cached blocks go back, and none that is held |
| CacheList.PushFront | AOS/aos/nedmalloc.cpp:519-528 | splicing a block in front keeps the list doubly linked |
| CacheList.PopFront | AOS/aos/nedmalloc.cpp:423-432 | taking the first block out keeps the list doubly linked |
| CacheList.PopBack | AOS/aos/nedmalloc.cpp:308-312 | taking the last block out keeps the list doubly linked |
| BinIndex.TopBitIs | AOS/aos/nedmalloc.cpp:229-243 | smearing and counting bits gives the leading bit of every non-zero 32-bit word |
| BinIndex.Size2BinIdx | AOS/aos/nedmalloc.cpp:202-246 | the floor logarithm of the size in units of 16 bytes |
| SpinLock.MutualExclusion | AOS/aos/malloc.c.h:1648-1727 | in every interleaving at most one thread is inside, the recorded owner is inside, and the counter is its nesting depth |
| SpinLock.AssertionsHold | AOS/aos/malloc.c.h:1648-1727 | the assertions in acquire, try and release hold in every run |
| SpinLock.NextInv | AOS/aos/malloc.c.h:1648-1727 | each single memory access keeps the invariant |
| ArenaPool.PoolIsSound | AOS/aos/nedmalloc.cpp:575-626 | in every interleaving the array is a gap-free prefix of at most `threads` different arenas, each thread gets an arena it has locked and no two get the same, and each arena made is published, destroyed or still with its maker |
| ArenaPool.ReadsInside | AOS/aos/nedmalloc.cpp:575-626 | the scans never read or write beyond the array |
| ArenaPool.NextInv | AOS/aos/nedmalloc.cpp:575-626 | each single access keeps the invariant |
| StringMatcher.FindSlot | AOS/aos/String_Matcher.cpp:23-52 | the binary search finds the child or the place where it belongs |
| StringMatcher.InsertWellFormed | AOS/aos/String_Matcher.cpp:55-106 | insertion keeps all child arrays sorted and unique |
| StringMatcher.InsertKeyCorrect | AOS/aos/String_Matcher.cpp:176-200 | insertion adds exactly the key, and exactly its prefixes as paths |
| StringMatcher.AdvanceLives | AOS/aos/String_Matcher.cpp:297-338 | the live matches are, at every position, exactly the starts whose text so far is a path in the trie |
| StringMatcher.ReportedExact | AOS/aos/String_Matcher.cpp:297-338 | a slice is reported if and only if it is a key, exactly once and at the step where it ends |
| StringMatcher.CharIndexer.Search | AOS/aos/String_Matcher.h:339-351 | driving move over a whole text reports exactly the occurrences of the keys |

## Left out

- Keys are integers and the order is `<`; the source is generic in a strict total order. `KeyOrder.RankEmbeds` shows that the keys of any finite run embed with their order.
- Node slot arrays are fields of type `seq` of fixed length rather than arrays, so that aliasing between the slot arrays of two nodes cannot arise in the model.
- Allocation and deletion of nodes are the ghost set `nodes`; use after free shows as a node outside that set.
- The shared choice of a repair, written twice in the source (for leaves and for inner nodes), is one method, `PickRepair`.
- BTreeObject.BTreeObject.Restore: images that are no beginning of a dumped image are not modelled, and a record that ends early counts as not there; the header is reduced to the slot capacities and the duplicates flag, its other fields being constants of one instantiation.
- BTreeObject.BTreeObject.CopyFrom: both objects have the same capacities, as they are of one type; the comparison object is not modelled.
- Reverse and const iterators, `equal_range` (both bounds), `swap`, the comparison operators, printing and allocators of the B+ tree: wrappers around what is modelled.
- The heap `MSpace` keeps its bins as values; that the macros on the words do the same is proved bin by bin, in `SmallLinks` and `TreeLinks`, where a bin has its own maps of words.
- MSpaces.MSpace.SysAlloc: one segment; the system either refuses or grants memory right behind it. `add_segment`, `prepend_alloc`, direct mmap, `sys_trim`, `release_unused_segments`, statistics and the magic footer value are not modelled.
- `internal_realloc`, calloc's clearing and the contents of blocks are not modelled.
- Corruption actions are not modelled: `MSpaces.MSpace.FreeChunk` shows that the run-time checks pass in every sound heap.
- MSpaces.MSpace.constructor: the region must have room for the allocator's record and a top chunk, which the callers in the source check beforehand.
- MemAlign.Memalign: alignments above 2^63 are excluded, because there the doubling loop of the code does not end; `MemAlign.LoopEnds` shows that this is the exact condition.
- CoAlloc.Ialloc: a total of 2^64 or more is excluded, because the words are wrong there (`CoAlloc.AggregateSize`, `CoAlloc.TwoHalvesWrap`); a piece's head is written together with that of the remainder, which the next round overwrites, and the pinuse bit of the first piece is kept, not written again.
- The thread cache: the counters `frees`, `mallocs` and `successes` are unbounded; the calls of `mspace_free` made while blocks are aged out are collected in the sequence `released` and carried out afterwards (`PoolRuns.GiveBack`); the table of caches and its slots (`AllocCache`, `neddisablethreadcache`) is not modelled.
- PoolRuns.Perform: one thread with one arena; `nedprealloc`, `nedpcalloc` and the calls that pass the cache by (`nedpmemalign` and the independent ones) are not among the calls.
- ThreadCaches.ThreadCache.Free: a block that is already cached must not be freed again; the code detects this only for the newest block of the bin.
- The two protocols interleave single accesses in one global order; weaker memory orders, thread exit and the nested locking of the pool's mutex are not modelled, and whether `create_mspace` succeeds is left open.
- The matcher's children are values, so that the reallocation of child arrays is not modelled, and keys are not inserted while matches are alive; `search`, `move2`, `unset` and serialisation are left out.
- The codecs, the quoted strings, `Multi_String` and the C-string quoting of the shell are not part of this model.
