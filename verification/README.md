# A verified model of the hybrid heap, the boot loader's decoders, and three small algorithms

This project models, in Dafny 4.11, the user-side hybrid heap of the kernel's common library, with its three cooperating allocators and the checks its authors wrote for them, both Huffman decoders of the boot loader, the ring buffer between its download and unzip threads, the wildcard matcher of the 16-bit descriptors, and the heap sort of the pointer arrays. `dafny verify dfyconfig.toml` checks all of it.

The heap is a set of classes that mirror the source's objects and update their fields in place.

- `TreeBins`, `SmallBins`, `Bins`, `BinMaps`, `SizeBits`: the bins of the Doug Lea arena. Tries of large chunks and rings of small ones are maps of link fields with local conditions on each link; the abstract view is a map from chunks to sizes.
- `Tags`, `Arenas`, `Words`: the boundary tags as a tiling of the segment, and the arena's operations on tags, victim, top and bins. The abstract view is the map of live blocks.
- `SlabTrees`, `SlabCells`, `SlabHeaps`, `SlabInfos`: the address-ordered trees with back-pointers, the packed header word and free list of one slab, the slab allocator over pages, and its checks.
- `Bitmaps`, `PageCodes`, `PageMaps`, `PagedHeaps`: the bitmap over a byte buffer, the variable-length code of block lengths, what a bitmap means as a set of blocks, and the page allocator.
- `HybridHeaps`, `Memories`: the dispatcher over the three parts, which share one account of committed memory and one map of user bytes.

The decoders are `HuftCodes`, `HuftBuilds`, `HuftMakes`, `Hufts`, `Inflates` (table building and look-up of `inflate.c`) and `HuffTrees`, `CodeOrders`, `Huffmans`, `BitInputs` (the in-place tree of `inflate2.cpp`), over the bit strings of `BitStrings`. Both are compared with the code assignment of section 3.2.2 of RFC 1951, which is defined once in `Hufts`. `Rings` is a state machine of two threads whose steps are single bytes and single flag accesses. `Wildcards` and `HeapSorts` are the loops of the source with a declarative specification.

What the kernel may answer to a request for memory, and where it puts pages, are parameters: a refusal or a range of pages not in use. `Valid()` of `HybridHeaps.HybridHeap` is kept by every operation, so all statements about a valid heap hold in every state that any run of Alloc, Free and ReAlloc reaches, refusals included.

## Findings

Nine properties that the design or its comments suggest do not hold of the code as it is. Each is proved with its exact condition.

| where | what fails | exact condition, and an input |
|---|---|---|
| brdbootldr/ubootldr/inflate.c:373-386 | The width of a linked table can exceed the index width, although tables only link through their first `l` bits; decoding then reaches cells never written. | The tables are right only if `WideFree` holds: behind no multiple `w` of `l` bits is there room for a whole subtree of codes longer than `w + l` (`Hufts.TablesRightIff`, `WideFail`; lengths 1, 3, 3, 3, 3 with one index bit, `WideExample`). The index widths the inflater asks for satisfy it for every complete code (`CompleteIsRight`). |
| brdbootldr/ubootldr/inflate.c:413-427 | Unassigned codes are meant to be filled with the marker 99, but the test against the end of the value table counts all symbols, also the unused ones, so stale cells are read. | The tables are right only if `StaleFree` holds: the code is complete or every symbol has a code (`StaleFail`; lengths 1, 0, `OneCodeIsStale`). The codes of symbols are right in any case (`CodedIsRight`); the unassigned codes that go wrong are the first ones, as many as there are unused symbols (`UncodedIsKnown`). |
| brdbootldr/ubootldr/inflate2.cpp:266-292 | The byte distance to a 0-branch is written into 16 bits. | Right if and only if no 0-branch that is a subtree lies 16384 or more words behind its node (`Huffmans.BuiltIsRightIff` with `HuffTrees.Narrow`). Fails for 32768 codes of 15 bits (`ManyCodesAreWrong`), cannot fail for up to 16385 symbols (`FewCodesAreRight`). |
| brdbootldr/ubootldr/unzip.cpp:50-62, 147-180 | The ring protocol counts signals and tests for a full ring by equality, so it relies on reads that fill whole blocks. A short read can lead to overwritten bytes, to accesses behind the end of the ring, or to a wake-up without bytes, after which a stale byte is used. | Every interleaving is safe if and only if every read but the last fills a block, or the first read does not bring the zip header (the thread gives up), or the file fits into the ring and the reads after the first are as few as possible (`Rings.SafeIff`; `TwoHalves`). |
| kernel/eka/common/heap_hybrid.cpp:2757-2774 | The one enlargement of the page bitmap that the code makes does not always cover all pages of the heap. | It does if and only if the number of pages is not 1, 2 or 3 above a multiple of 16384 (`PageMaps.OneGrowthIsEnough`). |
| kernel/eka/common/heap_hybrid.cpp:2550-2600 | A size close to 2^32 is rounded up to 0 pages and taken for a request to shrink. | The block holds the requested size if and only if it is at most 2^32 - 4096 (`PagedHeaps.NewPagesFit`). |
| kernel/eka/include/dla.h:530-537 | Padding a request wraps. | The chunk size is large enough if and only if the request is below 2^32 - 11 (`Arenas.RequestFits`). DlMalloc guards against larger ones, DlRealloc does not. |
| kernel/eka/common/debugfunction.cpp:307-395 | The bitmap of a slab has 128 bits, but a slab of 4-byte cells has 252 of them. | The builder stays inside its four words if and only if no free cell has a number above 127 (`SlabInfos.BuildPartialSlabBitmap`), which holds for cells of 8 bytes and more (`LargeCellsFit`) and fails for every new slab of 4-byte cells (`SmallCellsDoNot`). |
| kernel/eka/common/debugfunction.cpp:1081-1112 | The slab check takes the largest cell size, 56 bytes, for an error. | A slab of a valid heap passes if and only if its cells are smaller (`SlabInfos.CheckOfSlab`). |

## Model

| member | source | states |
|---|---|---|
| HybridHeaps.HybridHeap.Alloc | kernel/eka/common/heap_hybrid.cpp:541-611 | One new block, or 0 and no change. The block comes from the slabs if and only if the request is below the threshold and a slab, an empty slab, the cached page or the kernel has room, from the pages if and only if it is large and they can be had and recorded, else from the arena, with a length bounded on both sides; 0 only when that is the arena and neither a free chunk, nor top, nor growth suffices |
| HybridHeaps.HybridHeap.Free | kernel/eka/common/heap_hybrid.cpp:633-687 | Whatever part the block belongs to, exactly that block disappears, and the null pointer changes nothing |
| HybridHeaps.HybridHeap.ReAlloc | kernel/eka/common/heap_hybrid.cpp:711-824 | A block that changes little stays untouched; one that its part may keep gets its new length there, in place exactly when its chunk, top or the pages behind it allow; any other gets a new address in the part that Alloc takes for the new length. Growing blocks gain at least a quarter. The first min(old, new) bytes are kept, on failure everything stays; never moved under ENeverMove, nor when shrinking without EAllowMoveOnShrink; all other blocks keep places and bytes |
| HybridHeaps.HybridHeap.ReAllocNone | kernel/eka/common/heap_hybrid.cpp:711-824 | Without an old block it serves the request exactly as Alloc does, and fails under ENeverMove |
| HybridHeaps.HybridHeap.AllocLen | kernel/eka/common/heap_hybrid.cpp:483-502 | The length found through the address tests is that of the part the block came from |
| HybridHeaps.HybridHeap.RouteIs | kernel/eka/common/heap_hybrid.cpp:633-687 | In every reachable state the two address tests name a part if and only if the block was allocated by it |
| HybridHeaps.HybridHeap.BlocksApart | kernel/eka/common/heap_hybrid.cpp:541-687 | Any two live blocks of any of the three parts are disjoint |
| HybridHeaps.HybridHeap.CellPlace | kernel/eka/common/heap_hybrid.cpp:2219-2247 | A live cell lies inside a page the bitmap records, and never at the start of a page |
| HybridHeaps.HybridHeap.DoCheckCommittedSize | kernel/eka/common/debugfunction.cpp:1118-1122 | The check of the committed size, made with the pages that CheckBitmap counts, holds in every reachable state |
| HybridHeaps.HybridHeap.constructor | kernel/eka/common/heap_hybrid.cpp:439-480 | The new heap satisfies all invariants, has committed its minimum and holds no block |
| HybridHeaps.HybridHeap.ConfigureSlabs | kernel/eka/common/heap_hybrid.cpp:2187-2204 | Switching the slab allocator on keeps all invariants and all blocks, and installs the table and threshold of the configured sizes |
| HybridHeaps.HybridHeap.MoveBlock | kernel/eka/common/heap_hybrid.cpp:711-824 | Alloc, copy and Free turn one block into another, at a new address in the part that Alloc takes, with the same contents, and leave all others alone |
| HybridHeaps.TookPlace | kernel/eka/common/heap_hybrid.cpp:711-824 | A gain of one block followed by the loss of another is a change of one block into the other |
| HybridHeaps.KeptByCopy | kernel/eka/common/heap_hybrid.cpp:711-824 | After the copy the bytes of the old block are in the new one, and no other live byte has changed |
| Arenas.Arena.ChecksPass | kernel/eka/common/debugfunction.cpp:956-1013 | In every reachable state chunks, top and foot add up to the segment, no two free chunks touch, and the free chunks are exactly the victim and the bin contents, each once with its size |
| Arenas.Arena.DlMalloc | kernel/eka/common/heap_hybrid.cpp:1468-1600 | One new block of the padded size with less than 16 bytes of excess. Small requests take a binned chunk of the exact size, else of eight bytes more, else the victim if it fits, else the smallest binned chunk that fits; large ones the best fit of bins and victim; top is cut only if nothing fits, and the segment grows, by the rounded need, only if top is too small too. What the victim is afterwards. When it can fail |
| Arenas.Arena.DlFree | kernel/eka/common/heap_hybrid.cpp:1603-1687 | Exactly the freed block leaves the live blocks. A span that reaches top becomes part of it, and top is trimmed if and only if it has outgrown its bound, down to less than a page above its foot or the minimum of the segment; otherwise top stays. What the victim is afterwards |
| Arenas.Arena.DlRealloc | kernel/eka/common/heap_hybrid.cpp:1690-1757 | Stays in place if and only if the chunk is large enough or top can make it so, with less than 16 bytes of excess; else moves with its bytes to where DlMalloc meets the request, or fails without a change, only if nothing fits or the block may not move |
| Arenas.Arena.MoveChunk | kernel/eka/common/heap_hybrid.cpp:1747-1755 | A new chunk, found like any other, gets the bytes of the old one, which is freed |
| Arenas.Arena.SysTrim | kernel/eka/common/heap_hybrid.cpp:1389-1420 | Gives back whole pages, as many as pad and the minimum of the segment allow, and no more |
| Arenas.Arena.SysAlloc | kernel/eka/common/heap_hybrid.cpp:1424-1453 | Grows the segment by the rounded need, if at all, and serves the request from the front of top; the conditions under which it fails |
| Arenas.Arena.Grow | kernel/eka/common/heap_hybrid.cpp:1424-1453 | Growing the segment keeps the tags and the blocks |
| Arenas.Arena.GrowthIs | kernel/eka/common/heap_hybrid.cpp:1424-1453 | The growth step is whole pages and reaches the request, unless it wraps |
| Arenas.Arena.constructor | kernel/eka/common/heap_hybrid.cpp:1456-1466 | The first segment is all top, with no live and no free chunk |
| Arenas.Arena.InitTop | kernel/eka/common/heap_hybrid.cpp:1066-1079 | Setting the size of top keeps the tags and the blocks |
| Arenas.Arena.TmallocLarge | kernel/eka/common/heap_hybrid.cpp:942-1020 | Takes the smallest binned chunk that fits, a best fit among all free ones; declines only if the victim fits at least as tightly or nothing fits |
| Arenas.Arena.SmallRequest | kernel/eka/common/heap_hybrid.cpp:1492-1550 | Takes a binned chunk of the exact size, else of eight bytes more, else, when the victim is too small, the smallest one that fits; declines exactly when the victim is to serve the request or nothing in the bins fits |
| Arenas.Arena.UseForVictim | kernel/eka/common/heap_hybrid.cpp:1044-1061 | A taken chunk is split, and a rest of at least 16 bytes becomes the victim while the old victim goes to its bin |
| Arenas.Arena.ReplaceDv | kernel/eka/common/heap_hybrid.cpp:1361-1372 | No free chunk is lost or held twice when the victim is replaced |
| Arenas.Arena.FreeForward | kernel/eka/common/heap_hybrid.cpp:1642-1685 | Merging with what follows, in all four cases, keeps the invariants and loses only the freed block |
| Arenas.Arena.FreeBetween | kernel/eka/common/heap_hybrid.cpp:1660-1684 | The merged span goes to the victim or to a bin, once |
| Arenas.Arena.FreeTop | kernel/eka/common/heap_hybrid.cpp:1646-1659 | The merged span becomes part of top, which is trimmed if and only if it has outgrown its bound |
| Arenas.Arena.JoinVictim | kernel/eka/common/heap_hybrid.cpp:1616-1633 | The victim takes over the freed block |
| Arenas.Arena.ExpandIntoTop | kernel/eka/common/heap_hybrid.cpp:1716-1727 | A block takes its new size from top |
| Arenas.Arena.CutUsed | kernel/eka/common/heap_hybrid.cpp:1704-1715 | A live block is cut in two live blocks |
| Arenas.Arena.LivesApart | kernel/eka/common/debugfunction.cpp:956-982 | Live chunks do not overlap |
| Arenas.Arena.WordsApart | kernel/eka/common/debugfunction.cpp:739-809 | No head, foot or link that the arena keeps lies in a byte of a live block, though the foot word of the next chunk belongs to the block |
| Arenas.Arena.BoundedVictim | kernel/eka/common/heap_hybrid.cpp:996-998 | The unsigned comparison of remainders with the victim decides rightly, also when the victim is too small and the difference wraps |
| Arenas.RequestFits | kernel/eka/include/dla.h:530-537 | REQUEST2SIZE is large enough if and only if the padded request does not wrap; see Findings |
| Words.AlignUpReaches | kernel/eka/common/heap_hybrid.cpp:1424-1453 | Rounding up never falls short for any second operand, power of two or not |
| Words.AlignUpPages | kernel/eka/common/heap_hybrid.cpp:1424-1453 | Rounding up to a multiple of whole pages gives whole pages |
| Tags.Disjoint | kernel/eka/common/debugfunction.cpp:956-982 | From the local tag conditions: chunks do not overlap and end at top |
| Tags.Tiling | kernel/eka/common/debugfunction.cpp:956-982 | From the local tag conditions: the chunk sizes from any boundary add up to the distance to top |
| Tags.CutOk | kernel/eka/common/heap_hybrid.cpp:942-1064 | Splitting a chunk keeps all boundary tags in agreement |
| TreeBins.TreeBin.InsertLargeChunk | kernel/eka/common/heap_hybrid.cpp:1282-1340 | Keeps the trie invariant (size prefix of the path, one ring per size, agreeing links) and adds exactly the chunk |
| TreeBins.TreeBin.UnlinkLargeChunk | kernel/eka/common/heap_hybrid.cpp:1133-1219 | Keeps the trie invariant and removes exactly the chunk, whether it is on a ring, a leaf or an inner node |
| TreeBins.TreeBin.TakePlace | kernel/eka/common/heap_hybrid.cpp:1171-1218 | The replacement takes over cell, parent and children of the removed node |
| TreeBins.TreeBin.RightmostLeaf | kernel/eka/common/heap_hybrid.cpp:1151-1169 | The replacement is a leaf below the removed node, or there is none |
| TreeBins.TreeBin.FindLarge | kernel/eka/common/heap_hybrid.cpp:944-995 | The search returns a chunk that fits, such that no chunk of any bin that fits is smaller |
| TreeBins.TreeBin.FindSmallest | kernel/eka/common/heap_hybrid.cpp:1028-1042 | For a small request the smallest chunk of all bins is found |
| TreeBins.TreeBin.SearchBin | kernel/eka/common/heap_hybrid.cpp:949-975 | After the descent every better chunk of the bin is below the deepest right subtree not taken |
| TreeBins.TreeBin.WalkLeft | kernel/eka/common/heap_hybrid.cpp:987-995 | The leftmost path from a subtree that covers all better chunks ends with a best fit |
| TreeBins.TreeBin.LeastAbove | kernel/eka/common/heap_hybrid.cpp:976-986 | The first marked bin above an index, found in the word of the map |
| TreeBins.Unique | kernel/eka/common/debugfunction.cpp:811-867 | There is one node for each depth and each block of sizes |
| TreeBins.UnderRoot | kernel/eka/common/debugfunction.cpp:811-867 | Every node is reached from the root of its bin |
| TreeBins.Ancestor | kernel/eka/common/debugfunction.cpp:811-867 | A node has an ancestor on every smaller depth, which shares the size prefix |
| TreeBins.DescendInside | kernel/eka/common/heap_hybrid.cpp:954-974 | A better chunk below a node is below the child that the next bit selects, or below the right child passed over |
| TreeBins.OlderRight | kernel/eka/common/heap_hybrid.cpp:964-972 | The deepest right subtree not taken is better than every older one |
| TreeBins.NextBin | kernel/eka/common/heap_hybrid.cpp:976-986 | With nothing left in the own bin, the root of the next marked bin covers all better chunks |
| TreeBins.LeftmostCovered | kernel/eka/common/heap_hybrid.cpp:987-995 | After a node only its leftmost child can hold something better |
| TreeBins.SignOf | kernel/eka/common/heap_hybrid.cpp:952-973 | The sign bit of the shifted size is the bit that selects the child |
| TreeBins.DeepEnough | kernel/eka/common/heap_hybrid.cpp:1282-1340 | Two sizes that differ leave room for one more level, so the descent ends |
| SizeBits.TopBitIs | kernel/eka/common/heap_hybrid.cpp:1260-1277 | The halving search finds the top bit |
| SizeBits.BinOfSize | kernel/eka/common/heap_hybrid.cpp:1260-1277 | The bin index is the top bit and the next one, so sizes of one bin agree on all bits above its width |
| SizeBits.BinOrder | kernel/eka/common/heap_hybrid.cpp:1260-1277 | Bins are in the order of their sizes |
| SizeBits.SignBit | kernel/eka/common/heap_hybrid.cpp:1282-1340 | The sign bit of s shifted left by n is bit 31 - n of s |
| BinMaps.LeastAbove | kernel/eka/common/heap_hybrid.cpp:978-984 | LEFT_BITS, LEAST_BIT and ComputeBit2idx together find the first marked bin above an index |
| BinMaps.LeastOf | kernel/eka/common/heap_hybrid.cpp:1028-1029 | LEAST_BIT and ComputeBit2idx find the first marked bin |
| BinMaps.IndexIs | kernel/eka/common/heap_hybrid.cpp:1375-1385 | ComputeBit2idx inverts IDX2BIT |
| BinMaps.LeastIs | kernel/eka/common/heap_hybrid.cpp:978-983 | LEAST_BIT isolates the lowest marked bit |
| BinMaps.WordMarks | kernel/eka/common/heap_hybrid.cpp:1102-1120 | Marking and clearing a bit of the word is adding to and removing from the set of bins |
| BinMaps.FirstMarked | kernel/eka/common/heap_hybrid.cpp:1521-1523 | The search in the word of a set gives the least element above the index, or none |
| BinMaps.ShiftedBack | kernel/eka/common/heap_hybrid.cpp:1498-1523 | The small map, shifted right and back, keeps exactly the bits above the index under the mask |
| SmallBins.OnlyOne | kernel/eka/common/heap_hybrid.cpp:1083-1100 | The front chunk is alone in its bin when the list head follows it, so that clearing the mark is right |
| SmallBins.Alone | kernel/eka/common/heap_hybrid.cpp:1222-1242 | A chunk with coinciding neighbours is the only one of its bin |
| SmallBins.SmallBin.InsertSmallChunk | kernel/eka/common/heap_hybrid.cpp:1102-1120 | Keeps the rings and adds exactly the chunk |
| SmallBins.SmallBin.UnlinkSmallChunk | kernel/eka/common/heap_hybrid.cpp:1222-1242 | Keeps the rings and removes exactly the chunk |
| SmallBins.SmallBin.UnlinkFirstSmallChunk | kernel/eka/common/heap_hybrid.cpp:1083-1100 | Removes exactly one chunk of the size of the bin |
| SmallBins.SmallBin.constructor | kernel/eka/common/heap_hybrid.cpp:930-938 | No bin is marked and none holds a chunk |
| Bins.BinSet.InsertChunk | kernel/eka/common/heap_hybrid.cpp:1123-1131 | The chunk enters the contents of the bins, whatever its size |
| Bins.BinSet.UnlinkChunk | kernel/eka/common/heap_hybrid.cpp:1244-1252 | The chunk leaves the contents of the bins, whatever its size |
| Bins.BinSet.NothingFits | kernel/eka/common/heap_hybrid.cpp:1516-1544 | Empty maps from an index on mean that no binned chunk is that large |
| Bins.BinSet.MarkedHas | kernel/eka/common/heap_hybrid.cpp:1498-1523 | A small bin is marked if and only if a chunk of its size is binned |
| Bins.BinSet.LeastMarked | kernel/eka/common/heap_hybrid.cpp:1521-1527 | The first marked small bin from an index on holds the smallest binned chunks of at least its size |
| SlabTrees.SlabLinks.TreeInsert | kernel/eka/common/heap_hybrid.cpp:1988-2022 | Keeps address order and every back-pointer, adds exactly the slab, and ends |
| SlabTrees.SlabLinks.TreeRemove | kernel/eka/common/heap_hybrid.cpp:1947-1983 | Keeps address order and every back-pointer, removes exactly the slab, root or not, and ends |
| SlabTrees.SlabLinks.FullPush | kernel/eka/common/heap_hybrid.cpp:2251-2258 | The slab becomes the front of the full list |
| SlabTrees.SlabLinks.FullRemove | kernel/eka/common/heap_hybrid.cpp:2304-2308 | The slab leaves the full list |
| SlabTrees.SlabLinks.Replace | kernel/eka/common/heap_hybrid.cpp:2155-2169 | Relinking another slab of the same page into the place of a node keeps the order, as pages are disjoint |
| SlabTrees.RootIsLowest | kernel/eka/common/heap_hybrid.cpp:1988-2022 | The root of a tree is its slab with the lowest address |
| SlabTrees.InOrderOnce | kernel/eka/common/heap_hybrid.cpp:2355-2388 | The in-order sequence of a subtree holds each slab below its root once and nothing else |
| SlabTrees.WalkVisitsOnce | kernel/eka/common/heap_hybrid.cpp:2355-2388 | The in-order sequence of a whole tree or of the full list holds exactly its slabs, each once |
| SlabTrees.TreeWalk | kernel/eka/common/heap_hybrid.cpp:2355-2388 | The walk without a stack calls its function on the in-order sequence, and ends |
| SlabCells.Unpack | kernel/eka/include/slab.h:38-57 | The fields of a header word can be read back from it |
| SlabCells.Repack | kernel/eka/include/slab.h:38-57 | A header word is made of its fields and nothing else |
| SlabCells.PopOk | kernel/eka/common/heap_hybrid.cpp:2225-2240 | Popping the free list makes one free cell live, keeps the list free of cycles, and the used field right |
| SlabCells.CarveOk | kernel/eka/common/heap_hybrid.cpp:2241-2248 | Carving makes one new cell live behind all others |
| SlabCells.PushOk | kernel/eka/common/heap_hybrid.cpp:2282-2296 | Pushing a live cell makes it free and changes no other cell |
| SlabCells.LastUsed | kernel/eka/common/heap_hybrid.cpp:2292-2298 | The subtraction of the size borrows from the sign bit if and only if the last live cell goes |
| SlabCells.WordRoom | kernel/eka/common/heap_hybrid.cpp:2241-2243 | The test of the raw header word against MAXUSEDM4BITS is the test for room |
| SlabCells.FullIs | kernel/eka/common/heap_hybrid.cpp:2241-2251 | A slab found full has no room for one more cell |
| SlabHeaps.SlabHeap.SlabAllocate | kernel/eka/common/heap_hybrid.cpp:2207-2265 | One more live cell of the size and no other change; from the lowest slab with room, else from the lowest empty slab, else from the cached page, else from a new one; fails exactly without any of these |
| SlabHeaps.SlabHeap.SlabFree | kernel/eka/common/heap_hybrid.cpp:2267-2313 | Exactly the freed cell is live no more; the only byte written is its first one; a page without cells is cached when no page is, and otherwise given back |
| SlabHeaps.SlabHeap.FromPartial | kernel/eka/common/heap_hybrid.cpp:2207-2265 | Full slabs found on the way go to the full list; the lowest slab with room serves |
| SlabHeaps.SlabHeap.AllocNewSlab | kernel/eka/common/heap_hybrid.cpp:2024-2050 | Fills the lowest empty slab of all pages; takes a page only when there is none |
| SlabHeaps.SlabHeap.AllocNewPage | kernel/eka/common/heap_hybrid.cpp:2067-2096 | The cached page if there is one, else a new one, becomes a slab page with one slab in use; fails exactly when neither can be had |
| SlabHeaps.SlabHeap.InitNewSlab | kernel/eka/common/heap_hybrid.cpp:2315-2331 | The header of the new slab, and its place as the only one of its tree |
| SlabHeaps.SlabHeap.FreeSlab | kernel/eka/common/heap_hybrid.cpp:2118-2174 | The cells of the emptied slab go; it is marked empty, and its page is linked by its highest empty slab, or, when all its slabs are empty, cached or given back |
| SlabHeaps.SlabHeap.FreePage | kernel/eka/common/heap_hybrid.cpp:2098-2116 | One unused page is cached, the next is given back with its code cleared |
| SlabHeaps.SlabHeap.LowestRoom | kernel/eka/common/heap_hybrid.cpp:2024-2050 | The root of the partial-page tree leads to the lowest empty slab of all |
| SlabHeaps.SlabHeap.NoneVacant | kernel/eka/common/heap_hybrid.cpp:2024-2050 | No empty slab exists when the partial-page tree is empty |
| SlabHeaps.SlabHeap.constructor | kernel/eka/common/heap_hybrid.cpp:2177-2185 | The empty slab allocator satisfies its invariants |
| SlabHeaps.LiveByte | kernel/eka/common/heap_hybrid.cpp:2207-2313 | A user may write to a live cell without disturbing any slab |
| SlabInfos.UsedIsLive | kernel/eka/include/slab.h:42-46 | The used field plus four is the number of live cells times their size |
| SlabInfos.CellsApart | kernel/eka/common/heap_hybrid.cpp:2219-2247 | Live cells lie in their slab behind its header and do not overlap |
| SlabInfos.LinksApart | kernel/eka/common/heap_hybrid.cpp:2282-2289 | No slab header and no byte of a free list lies in a live cell |
| SlabInfos.SlabConfig | kernel/eka/common/heap_hybrid.cpp:2187-2204 | Every size index stands for the smallest configured cell size that is large enough, and the threshold for the greatest |
| SlabInfos.ServedWell | kernel/eka/common/heap_hybrid.cpp:2187-2204 | Requests below the threshold get cells that are large enough, and configured sizes map to themselves |
| SlabInfos.BuildPartialSlabBitmap | kernel/eka/common/debugfunction.cpp:307-395 | Without a free cell beyond bit 127 the bitmap is exactly the complement of the live cells, and it stays inside its four words if and only if there is none |
| SlabInfos.MarkList | kernel/eka/common/debugfunction.cpp:326-354 | The walk along the free list marks exactly the cells on it |
| SlabInfos.LargeCellsFit | kernel/eka/common/debugfunction.cpp:307-395 | Cells of eight bytes or more always stay inside the bitmap |
| SlabInfos.SmallCellsDoNot | kernel/eka/common/debugfunction.cpp:307-395 | A new slab of 4-byte cells does not; see Findings |
| SlabInfos.CheckOfSlab | kernel/eka/common/debugfunction.cpp:1081-1112 | A slab passes the check if and only if its cells are not of the largest size; see Findings |
| Bitmaps.Bitmap.SetValue | kernel/eka/common/heap_hybrid.cpp:2472-2480 | Writes the low bits of a value over the bits from a position, and no others |
| Bitmaps.Bitmap.Setn | kernel/eka/common/heap_hybrid.cpp:2465-2470 | Writes equal bits from a position on, and no others |
| Bitmaps.Bitmap.Bits | kernel/eka/common/heap_hybrid.cpp:2482-2490 | Reads the value of a stretch of bits, least significant first |
| Bitmaps.Bitmap.Find | kernel/eka/common/heap_hybrid.cpp:2506-2514 | Finds the first bit with a value, or there is none |
| PageCodes.RoundTrip | kernel/eka/common/heap_hybrid.cpp:2712-2804 | Decoding inverts encoding, whatever follows, if and only if 1 <= n < 2^18 |
| PageCodes.BigReads | kernel/eka/common/heap_hybrid.cpp:2712-2804 | Longer blocks are read modulo 2^18 |
| PageCodes.PrefixFree | kernel/eka/common/heap_hybrid.cpp:2712-2728 | No code is the beginning of another one |
| PageCodes.CodeFits | kernel/eka/common/heap_hybrid.cpp:2712-2728 | A code is no longer than two bits for each page of its block |
| PageCodes.CodeGrows | kernel/eka/common/heap_hybrid.cpp:2744-2752 | A longer block has no shorter code |
| PageCodes.ZapsItsCode | kernel/eka/common/heap_hybrid.cpp:2730-2742 | The length computed from the size in bytes is that of the code written |
| PageMaps.OneReading | kernel/eka/common/heap_hybrid.cpp:2754-2804 | A bitmap stands for one set of blocks only |
| PageMaps.CodesApart | kernel/eka/common/heap_hybrid.cpp:2754-2779 | The codes of two blocks never share a bit |
| PageMaps.SetOk | kernel/eka/common/heap_hybrid.cpp:2754-2779 | Writing the code of a new or growing block adds or changes exactly it |
| PageMaps.ZapOk | kernel/eka/common/heap_hybrid.cpp:2806-2807 | Clearing a code removes exactly its block |
| PageMaps.GrowOk | kernel/eka/common/heap_hybrid.cpp:2754-2779 | Copying the bits to a larger, cleared buffer keeps the blocks |
| PageMaps.NextRun | kernel/eka/common/heap_hybrid.cpp:2613-2629 | From a block boundary on, the first one bit begins the next block |
| PageMaps.OneGrowthIsEnough | kernel/eka/common/heap_hybrid.cpp:2757-2774 | The enlarged bitmap covers all pages if and only if their number is not 1, 2 or 3 above a multiple of 16384; see Findings |
| PagedHeaps.PagedHeap.PagedEncode | kernel/eka/common/heap_hybrid.cpp:2754-2779 | The block is recorded, enlarging the bitmap if need be, or nothing changes; it succeeds if and only if the code fits or the pages for a larger bitmap can be had |
| PagedHeaps.PagedHeap.PagedDecode | kernel/eka/common/heap_hybrid.cpp:2781-2804 | Reads the code at a position, None where the source panics |
| PagedHeaps.PagedHeap.PagedSize | kernel/eka/common/heap_hybrid.cpp:2809-2810 | The bitmap gives back the length of every block |
| PagedHeaps.PagedHeap.Enlarge | kernel/eka/common/heap_hybrid.cpp:2757-2774 | The bitmap moves to pages of its own and keeps all blocks, if and only if the kernel has the pages and the heap may grow by them; else it stays as it is |
| PagedHeaps.PagedHeap.PagedAllocate | kernel/eka/common/heap_hybrid.cpp:2536-2548 | One new block of whole pages clear of all others, with the memory accounted for, if and only if the pages can be had and their code recorded |
| PagedHeaps.PagedHeap.PagedReallocate | kernel/eka/common/heap_hybrid.cpp:2550-2600 | Shrinks in place, grows in place, or moves with all its bytes; on failure nothing changes; growth happens in place, elsewhere or not at all exactly as the kernel, the limit and the bitmap allow |
| PagedHeaps.PagedHeap.PagedFree | kernel/eka/common/heap_hybrid.cpp:2602-2611 | Exactly the block goes, and its memory is given back |
| PagedHeaps.PagedHeap.PagedInfo | kernel/eka/common/heap_hybrid.cpp:2613-2629 | The scan reports every block of more than one page once, in address order, and their total |
| PagedHeaps.ListedOnce | kernel/eka/common/heap_hybrid.cpp:2613-2629 | The list of reported blocks is sorted, complete and free of repetitions |
| PagedHeaps.PagedHeap.CheckBitmap | kernel/eka/common/heap_hybrid.cpp:2658-2709 | The pages counted are those of all blocks and of the enlarged bitmap |
| PagedHeaps.PagedHeap.Reset | kernel/eka/common/heap_hybrid.cpp:2631-2656 | All blocks and the enlarged bitmap are given back |
| PagedHeaps.NewPagesFit | kernel/eka/common/heap_hybrid.cpp:2550-2600 | The new length holds the requested size if and only if rounding it up does not wrap; see Findings |
| Memories.Memory.Map | kernel/eka/common/heap_hybrid.cpp:1810-1887 | Commits the memory if and only if the limit and the kernel allow it and the size is not negative |
| Hufts.HuftBuild | brdbootldr/ubootldr/inflate.c:256-451 | Return code exact for oversubscribed and incomplete codes, and the index width. Without any condition every code of a symbol with no too wide table on its way is decoded to its value, flag and length; if no table is too wide, it is known which unassigned codes read stale cells and which are invalid; all streams are decoded rightly if and only if WideFree and StaleFree hold. Memory runs out only if more tables are needed than there is room for, and no table is built twice or in vain |
| Hufts.CodedIsRight | brdbootldr/ubootldr/inflate.c:413-432 | Codes of symbols are decoded rightly whatever becomes of unassigned codes: a literal with flag 16, end of block with 15, others by their list entries |
| Hufts.UncodedIsKnown | brdbootldr/ubootldr/inflate.c:413-427 | The first unassigned codes, as many as there are symbols without a code, read cells never written, and the others yield 99 |
| Hufts.NeededIs | brdbootldr/ubootldr/inflate.c:367-389 | Behind the prefix of every table some stream goes on with a code that is longer than the prefix, or with no code |
| Hufts.TablesRightIff | brdbootldr/ubootldr/inflate.c:351-447 | The looked-up value and bit count are those of section 3.2.2 of RFC 1951, and 99 exactly on unassigned code space, for every stream, if and only if no table is too wide and no stale cell is read |
| Hufts.CompleteIsRight | brdbootldr/ubootldr/inflate.c:791-800 | For complete codes both conditions hold at the index widths the inflater asks for |
| Hufts.WideFail | brdbootldr/ubootldr/inflate.c:373-386 | With a too wide table the stream of ones ends in a cell never written |
| Hufts.StaleFail | brdbootldr/ubootldr/inflate.c:413-427 | With unused symbols in an incomplete code the first unassigned code reads a stale value |
| Hufts.WideExample | brdbootldr/ubootldr/inflate.c:373-386 | A complete code of five symbols that violates the first condition |
| Hufts.OneCodeIsStale | brdbootldr/ubootldr/inflate.c:413-427 | A single one-bit code next to an unused symbol violates the second condition |
| Hufts.CountLengths | brdbootldr/ubootldr/inflate.c:292-300 | Counts the symbols of each length |
| Hufts.FindLengths | brdbootldr/ubootldr/inflate.c:309-323 | The least and greatest length, and the index width bounded by them |
| Hufts.FillOut | brdbootldr/ubootldr/inflate.c:326-332 | The number of missing codes, negative if and only if the lengths are oversubscribed |
| Hufts.SortValues | brdbootldr/ubootldr/inflate.c:343-348 | The value table lists the symbols by length and then by number |
| Hufts.DecodesIsInCode | brdbootldr/ubootldr/inflate.c:351-447 | Decoding a symbol by its code of RFC 1951 is running through its place in the table of codes |
| HuftBuilds.ChooseBits | brdbootldr/ubootldr/inflate.c:373-386 | The width chosen for a table reaches to the end of the code below its prefix or is at least the index width |
| HuftMakes.Make | brdbootldr/ubootldr/inflate.c:351-447 | All codes filled in order give tables in which every stream finds good entries, if no table is too wide; all tables built have different prefixes that longer codes run through, and memory runs out only if there is one more of these than room |
| HuftMakes.OpenTables | brdbootldr/ubootldr/inflate.c:367-411 | Opening tables down to the length of the code keeps the links between the open ones |
| HuftMakes.OpenNew | brdbootldr/ubootldr/inflate.c:367-389 | A table is opened only at a prefix that has none yet and that a longer code runs through |
| HuftMakes.FillRow | brdbootldr/ubootldr/inflate.c:429-432 | Exactly every f-th cell from the start is filled |
| HuftMakes.AdvanceCode | brdbootldr/ubootldr/inflate.c:434-437 | The backwards increment is the next code, bits reversed |
| HuftMakes.BackUp | brdbootldr/ubootldr/inflate.c:439-444 | Tables are closed exactly when the next code leaves their subtree |
| HuftCodes.SomeCode | brdbootldr/ubootldr/inflate.c:326-332 | With the codes filled out every stream begins with some code |
| HuftCodes.WalkIsCode | brdbootldr/ubootldr/inflate.c:497-506 | Good entries everywhere make the look-up loop return value and length of the code |
| Inflates.Decode | brdbootldr/ubootldr/inflate.c:497-506 | The loop over NEEDBITS and DUMPBITS returns what the walk over the bit stream does and drops exactly the bits of the code |
| Inflates.BitReader.NeedBits | brdbootldr/ubootldr/inflate.c:207 | Refilling the buffer does not change the bits to come |
| Inflates.BitReader.DumpBits | brdbootldr/ubootldr/inflate.c:208 | Exactly the first bits go |
| Huffmans.IsValid | brdbootldr/ubootldr/inflate2.cpp:470-495 | Accepts exactly complete codes, a single code of one bit, and the empty table |
| Huffmans.Decoding | brdbootldr/ubootldr/inflate2.cpp:314-363 | In place, from any accepted table of lengths, the words of the tree of its canonical code; no length is overwritten before it is read |
| Huffmans.HuffmanSubTree | brdbootldr/ubootldr/inflate2.cpp:266-292 | Lays out the subtree of the remaining codes below the pointer, overwriting only values already read |
| Huffmans.BuiltIsRightIff | brdbootldr/ubootldr/inflate2.cpp:228-363 | The words decode every code of section 3.2.2 of RFC 1951 to its symbol if and only if every 0-branch distance fits into 16 bits |
| Huffmans.TreeRightIff | brdbootldr/ubootldr/inflate2.cpp:228-363 | The same for a tree of more than one code |
| Huffmans.OneIsRight | brdbootldr/ubootldr/inflate2.cpp:356-360 | A single code is always decoded rightly |
| Huffmans.ManyCodesAreWrong | brdbootldr/ubootldr/inflate2.cpp:266-292 | A full table of 32768 codes of 15 bits is accepted but decoded wrongly; see Findings |
| Huffmans.FewCodesAreRight | brdbootldr/ubootldr/inflate2.cpp:266-292 | Tables of up to 16385 symbols are decoded rightly |
| HuffTrees.FollowIsCode | brdbootldr/ubootldr/inflate2.cpp:228-239 | Following the tree on a stream ends at the symbol whose code the stream begins with |
| HuffTrees.ReadIsFollow | brdbootldr/ubootldr/inflate2.cpp:228-239 | Reading the words is following the tree while distances fit |
| HuffTrees.ReadFails | brdbootldr/ubootldr/inflate2.cpp:228-239 | With a distance that does not fit some stream is misread |
| HuffTrees.NarrowIff | brdbootldr/ubootldr/inflate2.cpp:266-292 | Whether all distances fit can be told from the lengths of the codes |
| CodeOrders.BeginsIsDecodes | brdbootldr/ubootldr/inflate2.cpp:341-355 | The order that shorter codes come first and ties go by symbol number is that of RFC 1951 |
| CodeOrders.IndexOf | brdbootldr/ubootldr/inflate2.cpp:341-355 | No symbol has two places in code order |
| BitInputs.BitInput.constructor | brdbootldr/ubootldr/inflate2.cpp:115-136 | A stream may begin at any bit of a word, and reads as the bits in memory order |
| BitInputs.BitInput.ReadBits | brdbootldr/ubootldr/inflate2.cpp:179-214 | Returns the number the next bits stand for, across register refills, and drops exactly them |
| BitInputs.BitInput.ReadBit | brdbootldr/ubootldr/inflate2.cpp:151-160 | Returns and drops the next bit |
| BitInputs.HuffmanL | brdbootldr/ubootldr/inflate2.cpp:228-239 | Returns the symbol that the tree gives for the bits to come and drops exactly the bits of its code |
| Rings.SafeIff | brdbootldr/ubootldr/unzip.cpp:147-180 | For every sequence of read lengths: all interleavings are safe if and only if every read but the last fills a block, or the first does not bring the header, or the file fits into the ring and is read in as few reads as possible; see Findings |
| Rings.RunsAreSafe | brdbootldr/ubootldr/unzip.cpp:147-180 | With whole blocks, in every state of every run the counters stay within a ring of each other, no unread byte is overwritten, and the inflater has a prefix of the file |
| Rings.StepInv | brdbootldr/ubootldr/loadzip.cpp:139-166 | Every step of either thread keeps the invariant |
| Rings.GoesWrong | brdbootldr/ubootldr/unzip.cpp:50-62 | In all other cases a run exists that loses bytes, leaves the ring or hands over a stale byte |
| Rings.WokenFindsBytes | brdbootldr/ubootldr/unzip.cpp:50-62 | No wake-up finds the ring empty |
| Rings.NoDeadlock | brdbootldr/ubootldr/loadzip.cpp:139-166 | One of the threads can always go on until the file is handed over, or the unzipping thread has rejected the header |
| Rings.TwoHalves | brdbootldr/ubootldr/unzip.cpp:147-180 | After one whole block two half blocks are not safe |
| Wildcards.DoMatch16 | kernel/eka/common/des16.cpp:775-874 | -1 if and only if the folded text does not match the whole pattern, else the offset at which the part behind the leading stars first matches |
| Wildcards.Match | kernel/eka/common/des16.cpp:927-948 | The result is non-negative if and only if the whole text matches |
| Wildcards.CommitToEarliest | kernel/eka/common/des16.cpp:828-873 | Taking the earliest place of a star-free segment loses no match |
| Wildcards.OutOfInput | kernel/eka/common/des16.cpp:828-873 | A segment that runs out of text fits nowhere later |
| Wildcards.FindSegment | kernel/eka/common/des16.cpp:828-873 | The nested search finds the first place of a segment |
| Wildcards.UpToFirstStar | kernel/eka/common/des16.cpp:788-801 | Before the first star the match is anchored |
| HeapSorts.HeapSort | kernel/eka/common/array.cpp:552-592 | The array ends as a sorted permutation of its input for every total preorder |
| HeapSorts.SiftDown | kernel/eka/common/array.cpp:577-589 | The value goes into the hole, the heap is restored, and the tail stays |
| HeapSorts.RootIsGreatest | kernel/eka/common/array.cpp:566-576 | No entry of a heap exceeds its root |
| HeapSorts.HoleMoves | kernel/eka/common/array.cpp:579-588 | Moving the greater child up keeps the heap with a hole and the multiset |
| HeapSorts.HoleFilled | kernel/eka/common/array.cpp:584-589 | Filling the hole gives a heap |
| HeapSorts.Take | kernel/eka/common/array.cpp:566-576 | Moving the root behind the heap keeps the sorted tail above the rest |

## Left out

- HybridHeaps.HybridHeap.ReAlloc: sizes from 2^31 up (negative as TInt), which ReAllocImpl does not assert against, are not modelled; nor are growth requests whose enlargement by a quarter exceeds the limit that Alloc asserts, when the block has to move.
- Arenas.Arena.DlRealloc: requests whose padded size wraps around, from 2^32 - 11 up, are excluded; what REQUEST2SIZE makes of them is shown by Arenas.RequestFits.
- PagedHeaps.PagedHeap.constructor: heaps whose bitmap one enlargement does not cover (see Findings), and reserved sizes of 1 GB and more, are excluded; a second enlargement is not modelled.
- HybridHeaps.HybridHeap.ConfigureSlabs: that the slab allocator is switched on once the committed size reaches a threshold is left out; all operations are proved for a heap with and without it.
- Inflates.Decode: only the look-up loop for one code; the copying of matches, the block functions and the window are left out, and so is the distance of 32768, which the source masks to 0.
- BitInputs.HuffmanL: the stream is long enough; UnderflowL and the refilling of the buffer from a file are left out.
- Rings.SafeIff: a read that fails ends the run; what the header says is reduced to how many bytes it needs, and a file whose header is bad otherwise ends the run like one that is cut.
- Wildcards.DoMatch16: the folding of characters is an arbitrary function; folded and collated matching by locale are left out.
- Memory layout: heads, feet, links and free-list bytes are maps of their own beside the map of user bytes. In every reachable state no such word lies in a live block (Arenas.Arena.WordsApart, SlabInfos.LinksApart), and SlabFree writes only the first byte of the freed cell; that no operation writes a head or foot inside a block that stays live and restores it is not stated.
- Maps of bins are sets of indices whose words are computed for the searches; the ring of an empty small bin keeps its stale links as in the source.
- SlabFree's detour from the cell size over iSizeMap to the tree of that size: the tree is indexed by cell size; SlabInfos.ServedWell shows that the detour ends at it.
- Compress: it unmaps the cached page without clearing its code, so the account of committed memory is stated without it.
- Reset of the whole heap: only its page part (PagedHeaps.PagedHeap.Reset).
- Available, AllocSize, DlInfo, SlabInfo, Walk, and the cell counts of PagedInfo, which takes blocks of one page for slab pages.
- Debug headers, tracing, locks, simulated failure, kernel mode, thread heaps and chunk handles: no property of the allocator rests on them.
- Huffman::InternalizeL, Inflater::DoInflate, TFileInput, YModem, flash, display and USB boot code.
- BinarySearch, InsertIsq and the growth of arrays: easy beside the sort. HeapSortSigned and HeapSortUnsigned are the same loop with another comparison.
