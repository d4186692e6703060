# A verified model of the Alpine kernel's memory stack, number text and containers

The kernel is a small x86-64 kernel in C. This project models the parts of it that carry a real
invariant and proves what they promise, over all inputs and over whole runs. Code that changes
things in place is a Dafny class or a method with loops; each such method is proved against a
function of the old state, and the laws are proved about those functions.

## The parts

**Heap** (`HeapSpec`, `HeapOps`, `HeapRuns`, `HeapAccounts`; `FlatMemory`, `HeapLayout`, `HeapLists`,
`HeapShape`, `Heap`, `HeapTraces`). There are two levels. `HeapSpec.State` is the heap as values: the chunks in
address order, 32 bins, three 64-bit counters. `Heap.Heap` is the code: one byte memory holding
the intrusive circular lists (`all` through the chunk headers, `free` laid over the payloads), the
`used` flags, `free_chunk[]` and the counters. Every method stores the same words as the C function, and its
`ensures` says that the new state is the function of `HeapOps` applied to the old one, and
(`Preserved`) that no byte of a live block that stays live, and no byte outside the region, differs.
`Valid()` says that memory really holds the lists, flags and bins of the state.

**Page manager** (`Bits`, `Pgm`): the directory bitmap, the moving hint, and the halving search for
the first set bit. The state is the set of free pages.

**Paging** (`PageTables`, `TableCount`, `Paging`): physical memory in 64-bit words, the four-level walk of Intel SDM
volume 3A section 4.5, and `mem_map_page` with everything built on it. A ghost `Tree` gives each table
its level and the one entry that points to it. The class keeps three ghost records beside it: the
tables a 2M leaf has cut off (`leaked`), the pages mapped on demand with their frames (`anon`), and
the tree itself.

**Memory map** (`Dll`, `MemMap`): the doubly linked list of nodes with owner pointers, and
`mem_find_range` / `mem_update_range` over it.

**Number text** (`Numerals`, `Strtoimax`, `Itoa`, `PrintfSpec`, `PrintfTexts`,
`PrintfPromises`, `PrintfFlags`, `Printf`): `strtoimax` and
`strtoumax` (sections 7.8.2.3 and 7.22.1.4 of ISO/IEC 9899:2018), `lltoa` with `strrev`, and the
whole of `sprintf_impl`. `PrintfSpec.Text` is the unlimited text a format stands for; the method
prints it into a bounded buffer, or through `put_char`. `PrintfTexts` describes the same text from the outside, with
the character codes written out. The variable arguments are a function from
their number to a 64-bit word, strings a function from a pointer to its text.

**Containers** (`CircBuf`, `Strtok`): the overwriting ring of byte blocks, and the tokenizer that
cuts a string in place (section 7.24.5.8 of ISO/IEC 9899:2018).

## Where the code does not do what it says

Each of these is proved as the exact condition under which the promise holds, with an input for which it
fails.

- The page directory is sized without its 48-byte header, so some region sizes leave pages without a
  bit (`Pgm.CoveredIff`; a 128 MB region is one, `Pgm.NotCovered`). On such a region the scan leaves the
  directory while pages are still counted as free (`Pgm.DrainedIff`).
- A request above 2^64 - 4 wraps when it is rounded up and gets a block of the smallest class
  (`HeapRuns.CapacityCoversIff`, `HeapRuns.WrappedRequest`); `krealloc` to such a size can copy more than
  the new block holds (`HeapRuns.ReallocFitsIff`, `HeapRuns.ReallocOverruns`).
- `kcalloc` multiplies modulo 2^64, so a wrapped product gets a block smaller than asked for
  (`HeapRuns.CallocCoversIff`, `HeapRuns.WrappedProduct`).
- `kmalloc` can fail although a free chunk is large enough: it only looks at bins whose every
  chunk fits (`HeapOps.MallocFailsIff`, `HeapRuns.FittingChunkRefused`).
- `kfree` after a `kmalloc` that handed out a whole chunk leaves both byte counters 24 short
  (`HeapRuns.MallocThenFree`, `HeapRuns.HeaderLost`).
- A 4K mapping under a 2M leaf is lost, because the size bit is not looked at: it is in force exactly when it
  names the frame the leaf already gives (`Paging.UnderLargeIsLost`, `Paging.MappingLost`).
- The size check of `mem_map_range_2m` only tells even from odd (`Paging.SizeCheckIsParity`,
  `Paging.TwoBytesMapTwoMegabytes`).
- `mem_update_range` accepts ranges that leave the map overlapping, and refuses some that only touch
  another (`MemMap.UpdateSoundIff`, `MemMap.TouchingRangePanics`, `MemMap.CoveringRangeOverlaps`).
- `0x` with no hexadecimal digit behind it leaves `*endptr` at the start instead of behind the zero
  (`Strtoimax.EndMeetsStandardIff`, `Strtoimax.BarePrefix`).
- `stdio.h` documents `%p` and `%X` as unsigned hexadecimal; the code prints them as signed decimals
  (`PrintfPromises.HexOfPXIff`, `PrintfPromises.NegativePointer`).
- `stdio.h` allows the comma flag for `%i` and `%d` only and says that it is ignored elsewhere; the code heeds it for
  every integer (`PrintfPromises.CommaOfBitsIff`, `PrintfPromises.CommaOfDecimalsIff`, `PrintfPromises.CommaInHex`,
  `PrintfPromises.CommaInUnsigned`).
- `stdio.h` says the same of `+`, space, `0` and `l` where it does not allow them; the code heeds them on some of these
  conversions (`PrintfFlags.SignIgnoredIff`, `PrintfFlags.BlankIgnoredIff`, `PrintfFlags.ZeroIgnoredIff`,
  `PrintfFlags.LongIgnoredIff`, `PrintfFlags.FlagsHeeded`).
- `stdio.h` assumes precision 0 where none is given; the code takes 1 (`PrintfTexts.DefaultPrecisionIff`).
- A precision larger than a string puts spaces in front of it (`PrintfTexts.StringPrecisionIff`), `%c` of 0 prints a
  space (`PrintfTexts.PercentC`), and a format that ends inside a conversion, which is to print nothing, prints its
  width in spaces (`PrintfTexts.UnfinishedIff`, `PrintfTexts.UnfinishedWidth`).
- `%o` and `%b` of a negative int print 64 bits (`PrintfTexts.NarrowBitsIff`).
- `%b` with more than 37 digits overruns the local buffer of 38 bytes (`PrintfSpec.DigitsFitIff`,
  `PrintfSpec.MinusOneInBinary`).
- `printf` returns 0, which is the number of characters printed only for an empty text (`Printf.PrintfTty`,
  `PrintfPromises.OneCharacter`).
- `circ_buf_peek_tail` and `circ_buf_peekn_tail` look outside the ring or at the wrong block when the
  index wraps (`CircBuf.PeekedOffsetIff`, `CircBuf.PeekedPlaceIff`, `CircBuf.BothPeeksMiss`), and the decrements
  go wrong for capacities above 2^63 (`CircBuf.DecrementedIff`, `CircBuf.DecrementWraps`).

## Model

| member | source | states |
|---|---|---|
| HeapSpec.Rounded | kernel/mem/heap.c:187-190 | the rounded request is the least multiple of 4 from 16 on that covers the request when nothing wraps, and 16 when it does |
| HeapSpec.SlotIsLog2 | kernel/mem/heap.c:151-158 | the bin number is floor(log2 size) |
| HeapSpec.HigherBinFits | kernel/mem/heap.c:192-202 | every chunk of the bins that are searched is large enough |
| HeapSpec.Grab | kernel/mem/heap.c:204-204 | taking a free chunk off its bin keeps the tiling and "each free chunk in exactly one bin, that of its size" |
| HeapSpec.Release | kernel/mem/heap.c:232-237 | putting a chunk on the bin of its size keeps the same |
| HeapSpec.SplitCore | kernel/mem/heap.c:208-217 | splitting a chunk keeps tiling, alignment and bins, the rest being a free chunk on its own bin |
| HeapSpec.FuseCore | kernel/mem/heap.c:246-259 | merging neighbours keeps tiling, alignment and bins |
| HeapOps.InitInv | kernel/mem/heap.c:160-180 | a new heap satisfies the whole invariant |
| HeapOps.MallocAddsOneBlock | kernel/mem/heap.c:186-223 | the invariant survives kmalloc; success adds exactly one live block, at a new 4-aligned address, with capacity from the rounded request up to less than 40 more; failure changes nothing |
| HeapOps.MallocFailsIff | kernel/mem/heap.c:186-202 | NULL exactly when no free chunk has 2^ceil(log2 r) payload bytes |
| HeapOps.FreeRemovesOneBlock | kernel/mem/heap.c:239-266 | the invariant (tiling, no two free neighbours, bins) survives kfree, and exactly the freed block stops being live |
| HeapOps.LiveBlocksDisjoint | kernel/mem/heap.c:186-266 | two live blocks never overlap and lie in the region |
| HeapOps.MallocKeepsLive | kernel/mem/heap.c:186-223 | kmalloc keeps every live pointer live |
| HeapOps.Capacity | kernel/mem/heap.c:289-290 | the capacity is the size of the live block at that pointer |
| HeapOps.ReallocBlocks | kernel/mem/heap.c:282-302 | size 0 frees exactly the block; a block that is large enough stays; otherwise exactly the old block, if any, is replaced by a live block at the pointer returned, or nothing changes |
| HeapRuns.MallocThenFree | kernel/mem/heap.c:186-266 | kfree directly after kmalloc restores the chunks and every bin in order; the byte counters come back exactly when the chosen chunk was large enough to be split |
| HeapRuns.CapacityCoversIff | kernel/mem/heap.c:186-190 | the returned capacity covers the request exactly when the rounding does not wrap |
| HeapRuns.CapacityIs | kernel/mem/heap.c:204-222 | the capacity is that of the chosen chunk, or the rounded request when the rest can be a chunk |
| HeapRuns.MallocTakesFront | kernel/mem/heap.c:192-222 | the pointer is 24 bytes into the chosen chunk, the block is the rounded request when 40 more bytes fit and the whole chunk otherwise, and the chunk is less than twice as large as any other one that is large enough |
| HeapRuns.CallocCoversIff | kernel/mem/heap.c:271-279 | the block covers nmemb * size bytes exactly when neither product nor rounding wraps |
| HeapRuns.ReallocFitsIff | kernel/mem/heap.c:294-299 | the copy fits the new block exactly when the size does not wrap, the old block is of the smallest class, or the chosen chunk is not split and large enough |
| HeapRuns.InitMalloc | kernel/mem/heap.c:160-223 | on a new heap kmalloc succeeds exactly when the chunk has 2^ceil(log2 r) bytes |
| HeapRuns.WrappedRequest | kernel/mem/heap.c:187-190 | every new heap gives fewer than 56 bytes for a request of 2^64 - 1 |
| HeapRuns.FittingChunkRefused | kernel/mem/heap.c:192-202 | kmalloc(20) refuses a free chunk of 28 bytes |
| HeapRuns.HeaderLost | kernel/mem/heap.c:220-244 | a kmalloc and kfree that leave mem_used at -24 |
| HeapRuns.WrappedProduct | kernel/mem/heap.c:271-273 | kcalloc(2^32, 2^32) succeeds with fewer than 56 bytes |
| HeapRuns.ReallocOverruns | kernel/mem/heap.c:294-296 | a krealloc that would copy 100 bytes into a block of fewer than 56 |
| HeapRuns.FreeAllRestoresInit | kernel/mem/heap.c:239-266 | freeing all live blocks, in any order, leaves the chunk and bins of a new heap |
| HeapAccounts.MetaIsExact | kernel/mem/heap.c:175-179 | mem_meta is 80 + 24N and makes up the region with all payload sizes |
| HeapAccounts.InitAccounts | kernel/mem/heap.c:175-179 | the accounts of the three counters hold of a new heap |
| HeapAccounts.ApplyKeeps | kernel/mem/heap.c:186-302 | each kmalloc, kfree and krealloc keeps invariant, region and the accounts of all three counters |
| HeapAccounts.RunKeeps | kernel/mem/heap.c:186-302 | so does every run |
| HeapAccounts.RunFromInit | kernel/mem/heap.c:160-302 | over every run from a new heap, invariant and accounts hold |
| HeapTraces.CallKeepsBlock | kernel/mem/heap.c:186-302 | a block that is not given up stays live over every call |
| HeapTraces.BytesAreTheClients | kernel/mem/heap.c:186-302 | over any run of calls and of writes by clients to their blocks, a block that is not given up stays, and each of its bytes holds what was last written to it |
| HeapTraces.Perform | kernel/mem/heap.c:186-302 | the heap in memory makes exactly such steps: any allowed call or write follows the relation the runs are made of |
| HeapTraces.PerformCalloc | kernel/mem/heap.c:271-279 | so does kcalloc, as a kmalloc of the product |
| FlatMemory.RingInsert | kernel/mem/heap.c:80-99 | the four stores of an insertion turn a circular list into the list with the node at that place |
| FlatMemory.RingRemove | kernel/mem/heap.c:102-107 | the stores of a removal turn it into the list without the node, which is left alone in a list of its own |
| FlatMemory.RingKept | kernel/mem/heap.c:73-107 | stores to other nodes leave a circular list as it is |
| HeapLayout.PayloadWritten | kernel/mem/heap.c:57-64 | client writes to live payloads disturb no list, flag or bin |
| HeapLists.Arena.DlistInit | kernel/mem/heap.c:74-77 | a list of one node |
| HeapLists.Arena.DlistInsertAfter | kernel/mem/heap.c:80-88 | insertion behind a node, in memory |
| HeapLists.Arena.DlistInsertBefore | kernel/mem/heap.c:91-99 | insertion in front of a node, in memory |
| HeapLists.Arena.DlistRemove | kernel/mem/heap.c:102-107 | removal, in memory |
| HeapLists.Arena.DlistPush | kernel/mem/heap.c:110-115 | the node becomes the head of the list |
| HeapLists.Arena.DlistPop | kernel/mem/heap.c:118-128 | the head leaves; the list pointer is the next node or NULL |
| HeapLists.Arena.DlistRemoveFrom | kernel/mem/heap.c:131-137 | any node leaves; the list pointer moves on only when it was the head |
| HeapLists.Arena.HeapChunkInit | kernel/mem/heap.c:139-143 | both lists of the chunk are alone, the flag is clear, all else stays |
| HeapLists.Arena.InitChunks | kernel/mem/heap.c:163-173 | head, first and tail are linked in order, and the sentinels marked used |
| HeapLists.Arena.PushFree | kernel/mem/heap.c:29-36 | DLIST_PUSH on a bin |
| HeapLists.Arena.PopFree | kernel/mem/heap.c:38-49 | DLIST_POP from a bin |
| HeapLists.Arena.RemoveFree | kernel/mem/heap.c:17-27 | DLIST_REMOVE_FROM a bin |
| HeapLists.Arena.InsertChunkAfter | kernel/mem/heap.c:211-211 | a chunk enters the `all` list behind another |
| HeapLists.Arena.RemoveChunk | kernel/mem/heap.c:249-249 | a chunk leaves the `all` list |
| HeapLists.Arena.HeapChunkSize | kernel/mem/heap.c:145-149 | the distance to the next chunk less the header |
| HeapShape.UntouchedPreserves | kernel/mem/heap.c:186-266 | stores to headers and free payloads only preserve every live block |
| Heap.Heap.constructor | kernel/mem/heap.c:160-180 | the region becomes a heap with one free chunk between the sentinels; bytes outside stay |
| Heap.Heap.HeapChunkSlot | kernel/mem/heap.c:151-158 | the loop computes the bin number |
| Heap.Heap.HeapRemoveFree | kernel/mem/heap.c:225-230 | the chunk leaves its bin, mem_free changes by its size less 24 |
| Heap.Heap.HeapPushFree | kernel/mem/heap.c:232-237 | the chunk heads its bin, mem_free changes by its size less 24 |
| Heap.Heap.FirstBin | kernel/mem/heap.c:192-202 | the lowest bin from ceil(log2 r) on that is not empty, if any |
| Heap.Heap.Take | kernel/mem/heap.c:204-222 | the rest of kmalloc refines the allocation on values and preserves live bytes |
| Heap.Heap.CutChunk | kernel/mem/heap.c:205-217 | the rest of the chunk becomes a free chunk in memory exactly when it can hold a header and the links of one more |
| Heap.Heap.SplitChunk | kernel/mem/heap.c:208-217 | the split in memory |
| Heap.Heap.Kmalloc | kernel/mem/heap.c:186-223 | refines the value-level kmalloc; no byte of any other live block changes |
| Heap.Heap.MergeNext | kernel/mem/heap.c:246-252 | merging the right neighbour, in memory |
| Heap.Heap.MergePrev | kernel/mem/heap.c:253-259 | merging into the left neighbour, in memory |
| Heap.Heap.ReleaseChunk | kernel/mem/heap.c:260-265 | the chunk itself becomes free, in memory |
| Heap.Heap.Merge | kernel/mem/heap.c:246-265 | whichever neighbours are free, memory and counters are those of the value-level kfree |
| Heap.Heap.Kfree | kernel/mem/heap.c:239-266 | refines the value-level kfree; no byte of any other live block changes |
| Heap.Heap.Kcalloc | kernel/mem/heap.c:271-279 | kmalloc of the product modulo 2^64, with that many bytes zero; they are the bytes asked for, and in the block, exactly when the product does not wrap |
| Heap.Heap.Krealloc | kernel/mem/heap.c:282-302 | the first min(old capacity, new size) bytes are the old ones; a failing call changes nothing; other live blocks keep their bytes |
| Heap.Heap.Move | kernel/mem/heap.c:294-299 | the branch that moves a block |
| Bits.FlipBit | kernel/mem/pgm.c:72-72 | toggling changes exactly that bit |
| Pgm.CoveredIff | kernel/mem/pgm.c:20-31 | the directory has a bit for every managed page exactly when its last page stands for at most 32384 + its own count of pages |
| Pgm.NotCovered | kernel/mem/pgm.c:20-31 | 128 MB is a region it does not cover |
| Pgm.DrainedIsAllocation | kernel/mem/pgm.c:65-76 | from a full directory, each step of the scan takes the next bit |
| Pgm.DrainedSteps | kernel/mem/pgm.c:65-76 | from a full directory, k allocations clear the first k bits and take k off free_pages |
| Pgm.StepOf | kernel/mem/pgm.c:65-76 | one allocation step flips the bit where the scan and the search end, and nothing else |
| Pgm.DrainedIff | kernel/mem/pgm.c:20-76 | on a covered region no run of allocations leaves the directory; on any other, after as many as there are bits, every word is zero, free_pages is positive, and the next one does |
| Pgm.FirstOne | kernel/mem/pgm.c:36-63 | the number of trailing zeros of every 64-bit word, -1 for 0 |
| Pgm.FirstBitIsLeast | kernel/mem/pgm.c:68-75 | the first bit of the first non-zero word is the lowest free page, below mem_pages |
| Pgm.PageManager.constructor | kernel/mem/pgm.c:17-34 | all managed pages are free, the hint at the first word |
| Pgm.PageManager.AllocatePage | kernel/mem/pgm.c:65-76 | the lowest free page is returned and is no longer free; 0 exactly when there is none; count and hint stay right; directory and count change by one allocation step |
| Pgm.PageManager.SkipZeros | kernel/mem/pgm.c:68-70 | the scan ends inside the directory |
| Pgm.PageManager.FreePage | kernel/mem/pgm.c:78-90 | exactly that page becomes free; count and hint stay right |
| Pgm.PageManager.UsedPages | kernel/mem/pgm.c:102-104 | the number of pages that are out |
| Pgm.FreeThenAllocate | kernel/mem/pgm.c:65-90 | a freed page is the next one allocated exactly when it is below all free ones |
| Pgm.AllocateInOrder | kernel/mem/pgm.c:65-76 | from a new manager, the pages come in order |
| Pgm.StaysOut | kernel/mem/pgm.c:65-90 | over any run a page that is out is not handed out until given back |
| Pgm.NeverOutTwice | kernel/mem/pgm.c:65-90 | between two allocations of one page there is a free of it |
| PageTables.EntryFields | kernel/mem/mem.c:165-179 | what the stored entries say to the walk: present, writable, size bit, frame |
| PageTables.AddressFields | kernel/include/kernel/mem/mem.h:19-29 | an address is its 12-bit offset and its four 9-bit indices, level 4 on top |
| PageTables.HeapAddress | kernel/include/kernel/mem/mem.h:15-29 | HEAP_VIRTUAL_ADDR has the indices 2, 0, 0, 0 |
| PageTables.WalkFields | kernel/mem/mem.c:161-181 | the walk of the four levels with the bits of address and entries it looks at |
| PageTables.SamePage | kernel/include/kernel/mem/mem.h:19-29 | two addresses agree on the table indices exactly when they are in one page |
| PageTables.GrownWellFormed | kernel/mem/mem.c:164-177 | hanging a cleared table on an empty entry keeps the tree |
| PageTables.GrownWalk | kernel/mem/mem.c:164-177 | and changes no translation |
| PageTables.LeafWellFormed | kernel/mem/mem.c:172-180 | writing a leaf keeps the tree |
| PageTables.LeafWalk | kernel/mem/mem.c:172-180 | and changes exactly the translations of its page |
| Paging.AddressSpace.constructor | kernel/mem/mem.c:111-128 | the state after mem_init, its tree well formed |
| Paging.AddressSpace.AllocateTable | kernel/mem/mem.c:155-159 | a page not in use before, cleared |
| Paging.AddressSpace.EnsureTable | kernel/mem/mem.c:163-178 | the next table exists afterwards, no translation changes, a page is taken only if it was missing |
| Paging.AddressSpace.WriteLeaf | kernel/mem/mem.c:172-180 | the final store remaps exactly one page |
| Paging.AddressSpace.MapPage | kernel/mem/mem.c:161-181 | every address of the 4K or 2M page walks to the new frame plus offset, every other one as before; the tables stay a tree; the pages in use are its tables (and those cut off by 2M leaves); exactly the missing tables are taken |
| TableCount.TablesNeeded | kernel/mem/mem.c:164-177 | at most three tables a 4K mapping, two a 2M mapping |
| TableCount.PathAgree | kernel/include/kernel/mem/mem.h:19-29 | two addresses share the path to a table exactly when their indices above it agree |
| TableCount.GrowAdds | kernel/mem/mem.c:164-177 | a new table is the only one added, for exactly the addresses that share its path |
| TableCount.MissingAt | kernel/mem/mem.c:164-177 | the paths a mapping finds missing are as many as the tables it takes |
| TableCount.MissingOnAfter | kernel/mem/mem.c:183-213 | what is missing for a range after one mapping is what was missing less that mapping's tables |
| TableCount.MissingStep | kernel/mem/mem.c:183-213 | so the tables a range takes add up over its pages |
| Paging.AddressSpace.MapRange4K | kernel/mem/mem.c:183-192 | the range translates to itself, everything else as before; exactly the tables missing for it are taken |
| Paging.AddressSpace.MapRange2M | kernel/mem/mem.c:194-203 | the range rounded up to 2M pages translates to itself, everything else as before; exactly the missing tables are taken |
| Paging.SizeCheckIsParity | kernel/mem/mem.c:198-198 | the size check accepts exactly the even sizes; the mapped range is the asked one exactly for multiples of 2M |
| Paging.TwoBytesMapTwoMegabytes | kernel/include/kernel/mem/mem.h:12-12 | a size of 2 bytes passes and maps 2M |
| Paging.UnderLargeIsLost | kernel/mem/mem.c:175-179 | under a 2M leaf the entry goes into the mapped frame and no translation changes; the mapping is in force exactly when the page it names is the one the leaf gives |
| Paging.LargeWalk | kernel/mem/mem.c:175-179 | under a 2M leaf every address of a 4K page walks to the leaf's 4K frame for it |
| Paging.MappingLost | kernel/mem/mem.c:175-179 | a tree with a 2M leaf on which a 4K mapping has no effect |
| Paging.AddressSpace.MapFresh | kernel/mem/mem.c:210-210 | the page gets a frame that was not in use; all on-demand pages keep frames of their own |
| Paging.AddressSpace.PageFault | kernel/mem/mem.c:348-351 | the faulting page is mapped to a frame of its own, other pages are as before |
| Paging.AddressSpace.AllocateRange | kernel/mem/mem.c:205-213 | every page of the range is mapped, each to a frame of its own; a frame a page and exactly the missing tables are taken |
| Paging.DifferentFrames | kernel/mem/mem.c:205-213 | two different on-demand pages never share a frame |
| Dll.List.AddOnly | libc/sys/dll.c:11-18 | the list of that node |
| Dll.List.AddHead | libc/sys/dll.c:20-31 | the node in front, links and owner of all nodes right |
| Dll.List.AddTail | libc/sys/dll.c:33-44 | the node behind |
| Dll.AddBefore | libc/sys/dll.c:46-58 | insertion at the node's index |
| Dll.AddAfter | libc/sys/dll.c:60-72 | insertion behind the node's index |
| Dll.List.RemoveHead | libc/sys/dll.c:74-87 | the first node leaves |
| Dll.List.RemoveTail | libc/sys/dll.c:89-102 | the last node leaves |
| Dll.Remove | libc/sys/dll.c:104-116 | removal at the node's index |
| Dll.List.Clear | libc/sys/dll.c:118-122 | the empty list |
| MemMap.UpdateIsPointwise | kernel/mem/mem.c:255-301 | a fitting range keeps the map sorted and disjoint; look-ups give the new attributes inside it and the old ones elsewhere |
| MemMap.UpdateSoundIff | kernel/mem/mem.c:255-301 | the call returns with a sorted disjoint map exactly for ranges inside one range, or disjoint from all and not ending where one begins |
| MemMap.UpdateOutcomes | kernel/mem/mem.c:255-301 | on a sorted map, the panic and the returned value, each with its exact condition on the ranges; false means that the range is the new last one |
| MemMap.LastUpdateWins | kernel/mem/mem.c:215-301 | over any run of fitting updates an address has what it was last given |
| MemMap.TouchingRangePanics | kernel/mem/mem.c:249-253 | a disjoint range that ends where another begins panics |
| MemMap.CoveringRangeOverlaps | kernel/mem/mem.c:289-300 | a range that covers another is stored beside it |
| MemMap.FindCovering | kernel/mem/mem.c:215-227 | in a sorted map a look-up finds the one range that covers the address |
| MemMap.MemoryMap.FindRange | kernel/mem/mem.c:215-227 | the loop finds the first range that covers the address |
| MemMap.MemoryMap.UpdateRange | kernel/mem/mem.c:255-301 | the loops over the list make the update; a panic leaves the map as it was |
| MemMap.MemoryMap.SplitRange | kernel/mem/mem.c:259-286 | the containing range is replaced by prefix, new range and suffix |
| MemMap.MemoryMap.Place | kernel/mem/mem.c:289-300 | the range goes in front of the first one behind it, or to the end |
| Numerals.NumeralValue | libc/stdlib/itoa.c:18-23 | the digits of a value have that value, lie below the base, and have no needless zero |
| Numerals.NumeralLength | libc/stdlib/itoa.c:18-23 | a 64-bit value has 1 to 64 digits in any base |
| Numerals.NumeralCharacters | libc/stdlib/itoa.c:22-22 | the digits below ten are 0 to 9, the others letters from a on for lltoa and from A on for printf |
| Numerals.DigitCharacters | libc/stdlib/strtoimax.c:71-76 | exactly 0 to 9 and the letters of both cases are digits, with the values 0 to 35 |
| Strtoimax.CutoffExact | libc/stdlib/strtoimax.c:82-100 | the cutoff test is exact: one more digit passes the limit exactly when it fires |
| Strtoimax.Head | libc/stdlib/strtoimax.c:11-30 | spaces, sign, prefix and base are read as the grammar says |
| Strtoimax.Cutoff | libc/stdlib/strtoimax.c:32-69 | quotient and remainder of the limit's magnitude, for both signs |
| Strtoimax.Strtoimax | libc/stdlib/strtoimax.c:6-106 | the mathematical value, or 2^63 - 1 above it and -2^63 below, with ERANGE exactly then, *endptr behind the digits; every intermediate result fits 64 bits |
| Strtoimax.Strtoumax | libc/stdlib/strtoimax.c:108-174 | the maximum with ERANGE exactly when the digits pass it, otherwise the signed value modulo 2^64 |
| Strtoimax.EndMeetsStandardIff | libc/stdlib/strtoimax.c:23-28 | *endptr is where the C standard puts it exactly when no prefix stands without a digit; the value is right in any case |
| Strtoimax.PartsRead | libc/stdlib/strtoimax.c:11-106 | spaces, sign, digits and a rest are read as that number, up to the rest |
| Strtoimax.PrefixRead | libc/stdlib/strtoimax.c:11-30 | in bases 0 and 16, 0x or 0X in front of hexadecimal digits is read as that hexadecimal number |
| Strtoimax.AutoBaseRead | libc/stdlib/strtoimax.c:29-30 | base 0 reads digits behind a 0 as octal, and digits behind another digit as decimal |
| Strtoimax.NoNumber | libc/stdlib/strtoimax.c:11-76 | a text with neither digit nor letter behind spaces and sign is read as 0, up to its start, in every base |
| Strtoimax.BarePrefix | libc/stdlib/strtoimax.c:23-28 | the text 0x has its end at 0, and the standard's at 1 |
| Itoa.UnsignedRoundTrip | libc/stdlib/itoa.c:5-33 | strtoumax of lltoa gives the value modulo 2^64 in every base, consuming all of it |
| Itoa.SignedRoundTrip | libc/stdlib/itoa.c:5-33 | strtoimax of lltoa in base 10 gives the value, the minimum included, without ERANGE |
| Itoa.TextsDiffer | libc/stdlib/itoa.c:5-33 | different values have different texts |
| Itoa.TextLength | libc/stdlib/itoa.c:18-30 | at most 64 characters |
| Itoa.TextCharacters | libc/stdlib/itoa.c:13-28 | a minus in front of negative decimals, and otherwise only digits and small letters |
| Itoa.TextOf255 | libc/stdlib/itoa.c:22-22 | 255 in base 16 is ff |
| Itoa.Lltoa | libc/stdlib/itoa.c:5-33 | the buffer gets the text and its terminator; nothing behind it changes |
| Itoa.PutDigits | libc/stdlib/itoa.c:18-23 | the loop leaves the digits in reverse |
| Itoa.Strrev | libc/string/strrev.c:3-14 | the text is reversed in place, the rest untouched |
| PrintfSpec.ParseFlags | libc/stdio/printf.c:148-169 | a run of flag characters is read as the set of its flags, whatever their order and number |
| PrintfSpec.ParseForm | libc/stdio/printf.c:148-212 | %[flags][width][.precision]type is read as those flags, that width and that precision, for flags in any order, zeros among them, and for numbers or asterisks, each of which takes an argument; so is a format that ends before its type |
| PrintfTexts.FieldIs | libc/stdio/printf.c:215-459 | what is printed for a conversion is its described text, for every type, flag, width and precision below 2^31 - 1 |
| PrintfTexts.IntegerField | libc/stdio/printf.c:216-459 | an integer field is sign, zeros and digits in base 16, 8, 2 or 10, padded with spaces on the side asked for |
| PrintfTexts.StringField | libc/stdio/printf.c:336-459 | a string field is the string, cut at the precision or brought up to it with spaces, padded |
| PrintfTexts.CharacterField | libc/stdio/printf.c:348-459 | a character field is the character, or a space for the code 0, padded |
| PrintfTexts.FormText | libc/stdio/printf.c:124-465 | the text of a format that begins with a documented conversion is the text of that field, for the argument behind those of its asterisks, followed by the text of the rest |
| PrintfTexts.FormFits | libc/stdio/printf.c:302-302 | its digits fit the value buffer unless it is a binary number of 2^37 and more |
| PrintfTexts.PercentS | libc/stdio/printf.c:336-346 | %s prints the string, and <null string> for a null pointer |
| PrintfTexts.PercentC | libc/stdio/printf.c:348-352 | %c prints the low byte of its argument, and a space for 0 |
| PrintfTexts.PercentOther | libc/stdio/printf.c:354-358 | %% prints %, and any character that is no flag, digit or type prints itself |
| PrintfTexts.StarField | libc/stdio/printf.c:171-178 | %*.*d takes width, precision and number from three arguments |
| PrintfTexts.StringPrecisionIff | libc/stdio/printf.c:343-415 | a precision cuts a string exactly when the string is that long; a shorter one gets spaces in front |
| PrintfTexts.UnfinishedIff | libc/stdio/printf.c:200-206 | a format that ends inside a conversion prints as many spaces as its width, so nothing exactly when that is 0 or missing |
| PrintfTexts.UnfinishedWidth | libc/stdio/printf.c:200-206 | the format %5 prints five spaces |
| PrintfTexts.NarrowBitsIff | libc/stdio/printf.c:264-272 | o and b print the 32 bits of an int exactly when it is not negative |
| PrintfTexts.DefaultPrecisionIff | libc/stdio/printf.c:132-305 | leaving the precision out is the same as precision 0 exactly for numbers other than 0, decimals with commas, and zero-filled widths larger than the sign |
| PrintfSpec.PlainText | libc/stdio/printf.c:362-466 | a format without conversions stands for itself |
| PrintfSpec.FieldCharacters | libc/stdio/printf.c:387-459 | from left to right: spaces, sign, zeros, digits, spaces, each at its place |
| PrintfSpec.ZeroPadded | libc/stdio/printf.c:323-333 | with the flag 0 the field is sign, zeros and digits up to the width, without spaces |
| PrintfSpec.FieldLength | libc/stdio/printf.c:383-459 | a field is as long as the largest of width, precision and content |
| PrintfSpec.DigitsFitIff | libc/stdio/printf.c:302-302 | the digits fit the value buffer except for binary numbers of 2^37 and more |
| PrintfSpec.MinusOneInBinary | libc/stdio/printf.c:302-302 | %b of -1 has 64 digits |
| PrintfPromises.SignOfPX | libc/stdio/printf.c:231-299 | p and X show the argument's bits with the sign asked for, and a minus for negative arguments |
| PrintfPromises.HexOfPXIff | libc/include/stdio.h:84-98 | p and X print the unsigned hexadecimal number of the argument's bits exactly when these are below 10 and not a 0 that precision 0 leaves out |
| PrintfPromises.NegativePointer | libc/stdio/printf.c:231-299 | %p of 2^64 - 5 is -5 |
| PrintfPromises.CommaOfBitsIff | libc/include/stdio.h:36-38 | on x, o and b the comma flag has no effect exactly on values of at most three digits |
| PrintfPromises.CommaInHex | libc/stdio/printf.c:282-316 | %,lx of 0x1000 is 1,000 |
| PrintfPromises.CommaOfDecimalsIff | libc/stdio/printf.c:282-316 | on u, p and X it has no effect exactly when the value is below 1000, no zeros are lost or gained, and the padding is the same |
| PrintfPromises.CommaOfDecimalsAsked | libc/stdio/printf.c:282-333 | for widths and precisions below 2^31: exactly when it is below 1000 and no more digits are asked for than it has |
| PrintfPromises.CommaInUnsigned | libc/stdio/printf.c:286-290 | the flag changes %.3u of 7 and %u of 1000 |
| PrintfPromises.OneCharacter | libc/stdio/printf.c:490-496 | the format a prints one character |
| PrintfFlags.SignIgnoredIff | libc/include/stdio.h:31-33 | + on o, b, i, u and p has no effect exactly on u, p and negative %i |
| PrintfFlags.BlankIgnoredIff | libc/include/stdio.h:29-31 | space on u, o, b and p has no effect exactly on p, under +, and where it takes the place of a padding space |
| PrintfFlags.ZeroIgnoredIff | libc/include/stdio.h:34-35 | 0 on u, i, o, b and p has no effect exactly on p, without a width to fill, and for widths no larger than what is shown |
| PrintfFlags.LongIgnoredIff | libc/include/stdio.h:39-42 | l on u, o, b, i and p has no effect exactly on p and on arguments that an int holds |
| PrintfFlags.FlagsHeeded | libc/stdio/printf.c:264-333 | %+o, % u, %02i of 0 and %lu of 2^32 differ from the fields without the flag |
| PrintfPromises.SameRender | libc/stdio/printf.c:383-459 | two fields with the same sign and side are equal exactly when padding and shown digits are |
| PrintfSpec.GroupingIsGrouped | libc/stdio/printf.c:309-316 | the loop's commas are those before each three digits from the right |
| PrintfSpec.GroupedLength | libc/stdio/printf.c:314-316 | n digits get (n - 1) / 3 commas |
| PrintfSpec.GroupedKeepsDigits | libc/stdio/printf.c:438-450 | without the commas the digits are left as they were |
| PrintfSpec.CommaPlaces | libc/stdio/printf.c:438-450 | commas are exactly at every fourth place from the right |
| PrintfSpec.FieldReadBack | libc/stdio/printf.c:215-459 | an integer field without commas reads back as its value, for all flags, widths and precisions |
| PrintfSpec.StrippedReadBack | libc/stdio/printf.c:215-459 | any integer field reads back as its value once its commas are removed |
| PrintfSpec.SignedStripped | libc/stdio/printf.c:258-316 | %d and %i, where commas are allowed, give the signed argument back once they are removed |
| PrintfSpec.SignedReadBack | libc/stdio/printf.c:258-299 | %d and %i fields give the signed argument back, the minimum included |
| PrintfSpec.LongReadBack | libc/stdio/printf.c:215-334 | fields of long arguments give all 64 bits back in every radix, without ERANGE |
| PrintfSpec.PercentLd | libc/stdio/printf.c:94-478 | strtoimax of "%ld" |
| PrintfSpec.PercentLx | libc/stdio/printf.c:94-478 | strtoumax of "%lx" |
| Printf.Output.constructor | libc/stdio/printf.c:115-122 | nothing printed yet, the end of the buffer fixed |
| Printf.Output.WriteChar | libc/stdio/printf.c:57-70 | the buffer gets as much of the text as fits in front of its end, put_char all of it |
| Printf.ValueToString | libc/stdio/printf.c:81-92 | a NUL and the digits, last one first |
| Printf.ReadNumber | libc/stdio/printf.c:185-189 | the decimal number modulo 2^32 |
| Printf.ReadSpec | libc/stdio/printf.c:148-212 | the flag loop reads flags, width and precision |
| Printf.IntegerValue | libc/stdio/printf.c:230-299 | radix, sign, prefix and printed bits |
| Printf.CountCommas | libc/stdio/printf.c:309-316 | the count with commas and the place of the first one |
| Printf.PrintInteger | libc/stdio/printf.c:216-334 | an integer field: left pad, sign, zeros, digits, right pad |
| Printf.CountText | libc/stdio/printf.c:369-381 | the characters of a string up to its precision |
| Printf.PrintText | libc/stdio/printf.c:336-373 | a field of text |
| Printf.Copy | libc/stdio/printf.c:421-451 | the copying loop, in both directions and with commas |
| Printf.PrintField | libc/stdio/printf.c:383-459 | padding, sign, zeros and content in order |
| Printf.PrintItem | libc/stdio/printf.c:145-465 | one round of the main loop prints one item and moves on behind it |
| Printf.SprintfImpl | libc/stdio/printf.c:94-478 | the buffer gets the text of the format up to its last byte but one and a terminator, and nothing is written behind; without a buffer put_char gets all of it |
| Printf.Sprintf | libc/stdio/printf.c:498-504 | the same for sprintf |
| Printf.PrintfTty | libc/stdio/printf.c:490-496 | printf prints the whole text and returns 0, which is its length exactly when it is empty |
| CircBuf.PushAllKeepsLast | libc/sys/circ_buf.c:59-69 | after any number of enqueues the ring holds the last ones in order |
| CircBuf.PushHeadsKeepLast | libc/sys/circ_buf.c:47-57 | after any number of enqueues at the head the ring holds the last ones, the very last in front |
| CircBuf.PlaceIsModulo | libc/sys/circ_buf.c:97-100 | places are sums modulo the capacity |
| CircBuf.Ring.constructor | libc/sys/circ_buf.c:18-25 | an empty ring |
| CircBuf.Ring.Fill | libc/sys/circ_buf.c:60-62 | the block is copied and no other changes |
| CircBuf.Ring.EnqueueHead | libc/sys/circ_buf.c:47-57 | a push at the head; when full the tail block is dropped |
| CircBuf.Ring.EnqueueTail | libc/sys/circ_buf.c:59-69 | a push at the tail; when full the head block is dropped |
| CircBuf.Ring.DequeueHead | libc/sys/circ_buf.c:71-80 | the head block is returned and gone; NULL exactly when empty |
| CircBuf.Ring.DequeueTail | libc/sys/circ_buf.c:82-91 | the tail block is returned and gone; NULL exactly when empty |
| CircBuf.Ring.PeekNHead | libc/sys/circ_buf.c:97-100 | block n from the head |
| CircBuf.PeekedPlaceIff | libc/sys/circ_buf.c:106-109 | for every 64-bit capacity, the exact condition for block n from the tail, with all wrap-around |
| CircBuf.PeekedPlaceFits | libc/sys/circ_buf.c:106-109 | where sums fit: exactly when n is below the tail index or the capacity divides 2^64 |
| CircBuf.BothPeeksMiss | libc/sys/circ_buf.c:102-109 | in a full ring of three blocks both functions miss the last one |
| CircBuf.DecrementedIff | libc/sys/circ_buf.c:35-45 | the decrement is one step back exactly when its sum does not wrap |
| CircBuf.DecrementWraps | libc/sys/circ_buf.c:35-45 | in a ring of 2^64 - 1 places, the decrement of 2 is 0 |
| CircBuf.PeekedOffsetIff | libc/sys/circ_buf.c:102-104 | the last block exactly when the tail index is not 0 |
| Strtok.Span | libc/string/strspn.c:3-10 | the longest prefix of delimiters |
| Strtok.ComplementSpan | libc/string/strspn.c:12-23 | the longest prefix without one |
| Strtok.Strspn | libc/string/strspn.c:3-10 | the loop computes it |
| Strtok.Strcspn | libc/string/strspn.c:12-23 | the loop computes it |
| Strtok.TokensExact | libc/sys/strsplit.c:6-14 | the tokens are exactly the maximal non-empty runs of non-delimiters, in order |
| Strtok.TerminatedAt | libc/string/strtok.c:14-15 | only the characters behind tokens change, to NUL |
| Strtok.TokenIntact | libc/sys/strsplit.c:6-14 | each token is left as a C string of its own characters, and nothing behind the string changes |
| Strtok.StrtokR | libc/string/strtok.c:23-40 | the next token, the saved pointer and the terminator; NULL when there is none |
| Strtok.CutToken | libc/string/strtok.c:29-39 | the same for the part behind the first test |
| Strtok.Tokenizer.Strtok | libc/string/strtok.c:3-21 | the same with a static pointer |
| Strtok.Strsplit | libc/sys/strsplit.c:6-14 | returns the starts of all tokens in order, leaves the string terminated behind each, and ends |

## Left out

- Heap.Heap.Kcalloc: a call that gets a block for a product within 3 of a multiple of 2^64 is excluded, since its memset would run through all of memory; one that gets none is not.
- Heap.Heap.Krealloc: a move whose copy would run over the new block is excluded (`HeapRuns.MoveFits`); HeapRuns.ReallocFitsIff says which moves those are.
- Heap.Heap.Kfree: a live pointer is a precondition; NULL, double frees and foreign pointers are not modelled.
- Heap.Heap.constructor: requires a region whose first chunk has at least 16 payload bytes and fewer than 2^32; the code does not look.
- Paging.AddressSpace.constructor: starts from a well-formed tree whose tables are the low manager's pages in use; mem_init, which builds it, is left out.
- Paging.AddressSpace.AllocateTable: the code reaches a table at its physical address; that the pages of the low manager translate to themselves is assumed, and mappings that would change it are not excluded.
- Paging.AddressSpace.MapPage: requires that the low manager has the missing tables, and no 2M leaf on the way of a 4K mapping; an exhausted manager returns page 0, which the code would use as a table.
- Paging.AddressSpace.MapRange4K: requires free pages for the tables missing on the range, no 2M leaf on the way, and a range that ends at 2^48 at the latest.
- Paging.AddressSpace.MapRange2M: requires free pages for the tables missing on the range, and a range that ends at 2^48 at the latest.
- Paging.AddressSpace.AllocateRange: requires free pages for the missing tables and a frame for each page, no 2M leaf on the way, and a range in the lower 48 bits.
- Paging.UnderLargeIsLost: the frame the 2M leaf maps must not itself hold a page table, which the stray store would damage.
- Paging.AddressSpace.PageFault: the interrupt frame is its faulting address; clearing it in the frame is left out.
- Pgm.PageManager.constructor: requires a covered region size (`Covered`); the mapping of the directory itself and the rotation of the handle are left out.
- Pgm.PageManager.FreePage: the page must be out; a double free is not modelled.
- MemMap.MemoryMap.UpdateRange: ranges must not wrap around 2^64; new nodes come from `new`, so a failing kmalloc is not modelled, and the frees of old nodes are left out.
- Dll.AddBefore: a node of another list is not moved; the node must be in no list, and the 32-bit size must not wrap.
- Strtoimax.Strtoimax: bases other than 0 and 2 to 36, which the standard does not allow, are not modelled; errno is a result.
- Itoa.Lltoa: bases other than 2 to 36 are not modelled.
- Printf.SprintfImpl: requires integers of at most 37 digits (the local buffer's size), format characters below 128 (others are sign-extended and read as four bytes), strings below 2 GB, and a buffer of size at least 1; it is given either a buffer or put_char. The byte beside each printed character, which is read and dropped, and the unused running length are left out.
- Strtok.Strsplit: the growable vector is a sequence, whose growth cannot fail; the search in the delimiter string is membership.
- PrintfFlags.BlankIgnoredIff: widths and precisions from 2^31 - 256 on, whose differences change sign, are left out; so they are for PrintfFlags.ZeroIgnoredIff.
- PrintfTexts.FieldIs: widths from 2^31 on and precisions from 2^31 - 1 on, whose 32-bit differences change sign, are left out.
- CircBuf.Ring.constructor: requires a capacity of at most 2^63, so that sums of places fit; CircBuf.DecrementedIff and CircBuf.PeekedPlaceIff say what happens beyond.
- CircBuf.Ring.PeekNHead: n must be below the size.
- mem_init, mem_mark_range, mem_find_range_by_type, multiboot and ELF tags: the memory map starts empty and page tables start well formed; marking changes one type in place.
- panic and assert are preconditions; the panic of mem_update_range is an outcome.
- Cache and TLB effects of page-table writes, and every hardware driver, interrupt, process and scheduler part.
- circ_buf_new, circ_buf_free and the aliases enqueue, dequeue, peek, push and pop.
- Small string functions (copy, concatenate, compare, trim) would add easy members only.
