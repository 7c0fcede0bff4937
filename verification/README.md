# A verified model of the segregated-free-list allocator and its driver

The project models, in Dafny 4.11, the malloc package `mm.c` over the simulated memory system
`memlib.c`, the trace interpreter of `mdriver.c` that checks and measures it, and the K-best sampler
of `fcyc.c`. `dafny verify dfyconfig.toml` checks everything.

**Memory.** `Memlib.MemLib` is one region of MAX_HEAP bytes in an array of 32-bit words, with a break
that only moves up. A ghost map shows the words by address; bytes are the little-endian bytes of those
words, so `memset` and `memcpy` work on bytes and tags and links on words. Every read and every write
requires an address below the break, so the allocator and the driver touch nothing past `mem_heap_hi()`.

**Heap values.** `HeapSpec.Heap` is the heap as a value: the blocks by payload address (size,
THISALLOC, PREVALLOC), the seventeen lists in order, the epilogue bit and the live requests.
`HeapSpec` and `HeapOps` give every operation of `mm.c` as a function on that value (`Coalesced`,
`Allocated`, `Extended`, `Malloc`, `Freed`, `Realloc`) and prove what it keeps. `Quiescent` is the
invariant between public calls: the blocks tile the heap, the lists hold exactly the free blocks, each
once and in its size class, a clear PREVALLOC bit is never wrong and only the epilogue can have one, and
every live block has the adjusted size of its request or eight bytes more.

**Layout.** `Layout.Rep` says that memory words and list heads represent a heap value: headers,
footers, prologue, epilogue, and both links of every list node. `Layout` and `Steps` prove which writes
carry the memory of one heap value to the memory of the next.

**The allocator.** `Mm.Allocator` is `mm.c` in place: the methods write header, footer and link words.
Each proves that, when memory represents heap value `g`, it represents the specified function of `g`
afterwards, and that no word of another allocated payload has changed. The public methods add what this
means for the map from live pointers to their bytes (`Contents`).

**Effects.** `Effects` writes out what `coalesce`, `allocate`, `extend_heap`, `mm_malloc`, `mm_free`,
`mm_realloc` and `mm_init` do to the blocks and to every list, without reference to their steps.

**Runs.** `Runs` draws the consequences for every reachable state, and `Pairs` those for neighbouring free
blocks; `Trace`, `Usage`, `Ranges` and `Driver` do the same for whole traces of the driver. `Wrapped` is
about requests whose size wraps around. `Sampler` is independent of the rest.

Some facts about the code that the model keeps as they are:

- `free_block` and `coalesce` never clear PREVALLOC in the next header, so neighbouring free blocks can
  stay apart. `AdjacentFreeReachable` shows four calls that leave such a pair. `NeverPairIff` says exactly
  which runs never do: those in which no block is freed right behind a free one.
- `mm_malloc` unlinks the chosen block twice, the second time through stale links. `StaleStep` and
  `StaleSuccessor` prove that the second time changes no list, tag or payload.
- The size computation wraps for requests above 2^32-12 (`AdjustServesIff`). `MmMalloc` takes every
  `size_t`: the last three sizes are served like twelve bytes, and the eight below them return a block that
  stays free, after overwriting the word before its header (`MallocNoneFrees`, `DentHits`), and usually also
  take that block off all lists. `WrapLosesHeap` gives two calls after which no free space can be found.
  The invariant holds after such a call if and only if the heap before it satisfies `Survives`: nothing was
  free, or the block that `find_fit` takes has an allocated block before it and merges with a free block
  behind it into another class whose list holds no other block (`SurvivesIff`, `DamagedValidIff`). A trace
  holds sizes in a C `int`, which are all below the wrapping ones.
- `find_fit` looks at list heads only, so it can miss a block that fits (`FindFitMissesIff`, `FitMissed`).
- `mm_realloc` copies as many bytes as the old block has, or as are requested. `CopyOverrunsIff` says exactly
  when the copy leaves the new block: never up to 2^32-12 bytes.
- `mm_init` compares the result of `mem_sbrk` with NULL, but failure is -1. `MmInit` proves that it never
  returns -1: when the first extension does not fit, its first write goes to address 2^32-1.
- `eval_mm_valid` compares a plain `char` with a value up to 255. Whether `char` is signed is
  implementation-defined (section 6.2.5 of ISO/IEC 9899:1999), so it is a parameter. For a signed `char`
  a correct allocator can be rejected (`SignedCharLosesData`); `AcceptedIff` and `VerdictInRoom` say exactly
  when a trace is accepted.
- `add_range` misses a new range that reaches beyond an old one on both sides (`TouchesIff`,
  `TouchesMisses`).

Inputs that come from outside are parameters: the address of the region, the page size, the signedness
of `char`, the trace and the measured times. Addresses are unbounded integers constrained to the 32-bit
range of the region; the region starts at a multiple of eight above NULL. Doubles are reals.

## Model

| member | source | states |
|---|---|---|
| Words.AdjustIsLeast | mm.c:97-148 | in 32-bit arithmetic ADJUST_BYTESIZE is the least multiple of 8 that is at least max(16, size + 4), for every size from 1 to 2^32-12 |
| Words.AdjustServesIff | mm.c:97-148 | a block serves its request if and only if the request is at most 2^32-12; above, the size wraps to 0 and for the last three sizes to 16 |
| Wrapped.ServedAdjusts | mm.c:97-148 | a size computes the block of its own request, the last three sizes that of twelve bytes, and the eight sizes below them no block at all |
| Words.PutByte | mm.c:114-115 | writing a byte changes that byte of memory and no other |
| SizeClass.CalcListIndex | mm.c:569-578 | the shifting loop returns min(floor(log2 size), 16) |
| SizeClass.ListIndexBand | mm.c:569-578 | a list below 16 holds exactly one power-of-two band of sizes, list 16 everything above |
| SizeClass.ListIndexMonotone | mm.c:569-578 | the class is monotone, so a block of a higher class is strictly larger than any request of a lower one |
| HeapSpec.WithoutAt | mm.c:585-610 | deleting a node from a list keeps the order of all others |
| HeapSpec.UnlistSound | mm.c:585-610 | taking a free block off its list keeps every invariant, with exactly that block unlisted |
| HeapSpec.EnlistSound | mm.c:617-642 | listing an unlisted free block at the end of its class keeps every invariant |
| HeapSpec.AbsorbSound | mm.c:389-422 | merging two unlisted free neighbours keeps the tiling, the bits and the index |
| HeapSpec.CoalescedSound | mm.c:378-429 | for every tiled heap in which clear bits are sound, coalesce in all four cases keeps every invariant and leaves nothing unlisted |
| HeapSpec.CoalescedBlocks | mm.c:378-429 | coalesce leaves one free block that spans exactly the merged blocks; every other block is unchanged |
| HeapSpec.ServesIff | mm.c:455-488 | the size relation that the invariant keeps for every live block means: exactly ADJUST_BYTESIZE of the request, or eight bytes more |
| HeapOps.CoalescedAlloc | mm.c:378-429 | coalesce changes no allocated block |
| HeapOps.AllocatedSound | mm.c:455-488 | allocate keeps every invariant, whether it splits or takes the block whole |
| HeapOps.AllocatedBlocks | mm.c:455-488 | the block gets the adjusted size or eight bytes more, no other allocated block changes, set bits stay set |
| HeapOps.ExtendedSound | mm.c:339-368 | extend_heap keeps every invariant and yields a free block of at least the extension |
| HeapOps.ExtendedBlocks | mm.c:339-368 | extension changes no allocated block and leaves all PREVALLOC bits of blocks set |
| HeapOps.FindFitLowest | mm.c:496-519 | find_fit returns the head of the lowest list, from the class of the size up, whose head fits; NULL means that no head fits |
| HeapOps.FindFitNull | mm.c:496-519 | NULL means that every list above the class is empty and the head of the class itself, if any, is too small |
| HeapOps.FindFitMissesIff | mm.c:496-519 | when find_fit answers NULL, a free block that fits exists if and only if a later node of the class list fits |
| Runs.FitMissed | mm.c:496-519 | a request of 20 bytes gets NULL on a heap with a free block of just its size behind a smaller list head |
| HeapOps.MallocKeeps | mm.c:241-280 | mm_malloc keeps the invariant and adds exactly the returned pointer to the live map; NULL changes nothing |
| HeapOps.FreedKeeps | mm.c:288-298 | mm_free keeps the invariant and removes exactly the freed pointer |
| HeapOps.ReallocKeeps | mm.c:303-326 | mm_realloc keeps the invariant and replaces the pointer; NULL changes nothing |
| HeapOps.InitQuiescent | mm.c:191-233 | the heap that mm_init builds satisfies the invariant |
| Effects.CoalescedExactly | mm.c:378-429 | coalesce, exactly: one free block from the merge point to the end of the merged space and all other blocks as they were; the absorbed neighbours leave their lists and the merged block goes last on its own |
| Effects.FreedExactly | mm.c:288-298 | mm_free, exactly: the block becomes free together with the one free block behind it, nothing else about the blocks changes; the absorbed block leaves its list and the freed one goes last on its own |
| Effects.AllocatedSplitExactly | mm.c:466-477 | allocate when the rest has 16 bytes or more: the front has exactly the adjusted size, the rest with the free block behind it is one free block, last on its list |
| Effects.AllocatedWholeExactly | mm.c:478-486 | allocate when the rest is smaller: the block is taken whole, leaves its list, and the bit behind it is set, that of the epilogue only when it comes next |
| Effects.ExtendedExactly | mm.c:339-368 | extend_heap, exactly: one free block up to the new break, from the old break or, when the epilogue bit was clear, from the free block before it |
| Effects.MallocExactly | mm.c:241-280 | mm_malloc takes the head of the lowest list whose head fits, with the break unmoved; when no head fits it extends the heap by exactly the larger of adjusted size and page, if there is room |
| Effects.ReallocExactly | mm.c:303-326 | the heap after mm_realloc is that after mm_malloc and then mm_free of the old pointer |
| Effects.InitExactly | mm.c:191-233 | mm_init leaves one free block, alone on the list of its class, with a clear bit in the epilogue |
| Effects.InitServesLarge | mm.c:222-223 | a first request for more than the page gets the start of the heap, since the extension absorbs the first block |
| Layout.UnlinkRep | mm.c:585-610 | the pointer writes of remove_from_list delete exactly the given node, from any position, and touch only links of that list |
| Layout.LinkRep | mm.c:617-642 | the pointer writes of add_to_list append exactly one node and touch only links |
| Layout.ReadNext | mm.c:131-140 | GET_NEXTALLOC is zero exactly when the next block is free; the epilogue counts as allocated |
| Layout.ReadPrev | mm.c:142 | when the PREVALLOC bit is clear, GET_PREVBLOCK finds the free block before |
| Layout.SpanRep | mm.c:389-422 | writing one header and one footer turns unlisted free space into one block with matching tags, and leaves lists and payloads alone |
| Steps.NextStep | mm.c:389-397 | the writes of case 2 represent the heap with the next block absorbed |
| Steps.PrevStep | mm.c:399-409 | the writes of case 3 represent the heap with the block absorbed by the previous one |
| Steps.BothStep | mm.c:411-422 | the writes of case 4 represent the heap with the three blocks merged |
| Steps.SplitStep | mm.c:466-477 | the four tag writes of a split represent the split heap, keep all payloads and leave the stale links readable |
| Steps.WholeStep | mm.c:478-486 | taking a block whole represents the heap with that block allocated and the bit in the next header set, the epilogue included |
| Steps.StaleSuccessor | mm.c:258-266 | after allocate, the old list successor of the block is the head of that list or lies buried in the rest that was given back |
| Steps.StaleStep | mm.c:258-266 | the second remove_from_list changes no list head, list, tag or payload; the one word it can change lies unused inside a free block |
| Steps.GrowStep | mm.c:346-363 | the writes of extend_heap turn the old epilogue into the header of the new block and set up a new epilogue |
| Steps.FreeStep | mm.c:436-450 | the writes of free_block represent the heap with the block marked free |
| Steps.PayloadWrite | mdriver.c:631 | a client that writes bytes of an allocated payload disturbs no tag, no list and no other payload |
| Memlib.MemLib.MemSbrk | memlib.c:58-69 | the old break and a moved break, or -1 and no change when the increment is negative or does not fit |
| Memlib.MemLib.PutW | mm.c:109-111 | a word write below the break changes that one word of the region |
| Memlib.MemLib.MemSet | mdriver.c:631 | exactly the bytes of the range take the value |
| Memlib.MemLib.MemCpy | mm.c:319 | exactly the bytes of the destination change, and they become those of the source |
| Mm.Allocator.MmInit | mm.c:191-233 | the memory represents the initial heap exactly when the first extension fits: one listed free block between prologue and epilogue, with the words of both as written, the epilogue being 0xEA7F00D1; otherwise the first write goes to 2^32-1 and no memory is set up, so -1 is never returned |
| Mm.Allocator.RemoveFromList | mm.c:585-610 | exactly the writes through the two stored links, whatever they are |
| Mm.Allocator.RemoveListed | mm.c:585-610 | on a listed block: exactly that block leaves its list, no payload changes |
| Mm.Allocator.FindEndOfList | mm.c:526-539 | terminates and returns the last node, or NULL for an empty list |
| Mm.Allocator.AddUnlisted | mm.c:617-642 | the block becomes the last node of its list, no payload changes |
| Mm.Allocator.Coalesce | mm.c:378-429 | memory then represents the coalesced heap, the result is its merge point, no payload changes; with the PREVALLOC bit set this does not depend on the word before the header |
| Mm.Allocator.Allocate | mm.c:455-488 | memory then represents the heap after allocate, no other payload changes, the block keeps its stale links; for an adjusted size of zero the block is given back whole, with the word before its header overwritten |
| Mm.Allocator.ExtendHeap | mm.c:339-368 | NULL and no change exactly when the region is exhausted, else the extended heap |
| Mm.Allocator.FindFitBlock | mm.c:496-519 | the loop over the list heads returns the specified block and its list |
| Mm.Allocator.AllocateFound | mm.c:258-266 | allocate followed by the second remove_from_list has the effect of allocate alone; for an adjusted size of zero the second call takes the block off its list unless it moved alone to another one |
| Mm.Allocator.MmMalloc | mm.c:241-280 | for every size_t: heap value and result are as specified, the bytes of all live allocations are kept and one allocation is added; NULL leaves all memory words unchanged; a size that wraps to zero yields a block still free and one overwritten word, and the invariant holds afterwards if and only if the heap before the call survives |
| Mm.Allocator.TakeFound | mm.c:255-267 | what mm_malloc does with the block that find_fit returned: the specified heap value, with all other payloads kept; for an adjusted size of zero the specified heap value but for the one overwritten word |
| Mm.Allocator.TakeExtension | mm.c:269-280 | the same with the block that extend_heap returned |
| Mm.Allocator.DamagedValidIff | mm.c:241-280 | after a size that wrapped to zero, memory and heap value satisfy the whole invariant if and only if the heap survives, a condition on the heap before the call |
| Mm.Allocator.DamagedBytes | mm.c:241-280 | after a size that wrapped to zero, every byte of every live allocation outside the one overwritten word is as it was |
| Mm.Allocator.FreeBlock | mm.c:436-450 | the block is marked free with both tags, no other payload changes |
| Mm.Allocator.MmFree | mm.c:288-298 | exactly one allocation leaves the map of live contents, all other bytes are kept |
| Mm.Allocator.MmRealloc | mm.c:303-326 | for every size_t: the first min(old size, new size) bytes are preserved, all other allocations are kept; NULL leaves everything unchanged; it is stated exactly when the copy would leave the payload handed out, which up to 2^32-12 bytes it never does, and what state mm_malloc has then left |
| Mm.Allocator.CopyPayload | mm.c:315-319 | exactly the bytes of the copied length change, which is at most the new request; all other payloads are kept |
| Mm.Allocator.MmCheck | mm.c:684-723 | every assertion of mm_check holds between calls, except that the check fails exactly when some block has a million bytes or more |
| Runs.ReachableQuiescent | mm.c:241-488 | every state reached by any sequence of public calls satisfies the whole invariant |
| Runs.LiveApart | mm.c:241-280 | live allocations are aligned, lie inside the heap and never share a byte |
| Runs.MallocFresh | mm.c:241-280 | mm_malloc returns a fresh aligned range of the requested size, apart from every live one |
| Runs.MallocNullIff | mm.c:249-273 | NULL exactly for size zero, or when no list head fits and the region has no room for the extension |
| Runs.MallocGrowth | mm.c:269-275 | the heap grows by at most the larger of the adjusted size and the page |
| Runs.LiveBlockFixed | mm.c:255-298 | a live block keeps its size, the adjusted one or eight bytes more, through every call until it is freed |
| Runs.LiveRunFixed | mm.c:255-298 | over every run: as long as a pointer stays live, its request and the size of its block, the adjusted one or eight bytes more, stay what they were |
| Runs.FreeMergesForward | mm.c:436-447 | mm_free never merges backward |
| Runs.AllocateMergesForward | mm.c:466-477 | allocate never merges its rest backward |
| Runs.ExtendMergesBackward | mm.c:353-367 | extend_heap never merges forward, and merges backward exactly when the epilogue bit was clear, so the case of two free neighbours is never reached |
| Runs.BothNeighboursPossible | mm.c:411-422 | the case of two free neighbours, though never reached, is not empty: a concrete sound heap, which coalesce turns into one block |
| Runs.FreeCoalescesIff | mm.c:288-298 | after mm_free the block has a free left neighbour exactly when it had one before, and a free right neighbour exactly when the two blocks behind it were free |
| Runs.AdjacentFreeReachable | mm.c:378-447 | four calls from a fresh heap reach a state with two neighbouring free blocks |
| Pairs.FreedPairIff | mm.c:288-298 | on a heap without free neighbours mm_free makes none if and only if the block before is not free |
| Pairs.AllocatedPairs | mm.c:455-488 | allocate leaves no free neighbours when the only ones were around the block it takes |
| Pairs.MallocKeepsNoPair | mm.c:241-280 | mm_malloc never makes two neighbouring free blocks, not even when it extends the heap behind a free block |
| Pairs.MallocBeforeIff | mm.c:241-280 | after mm_malloc the block before a live one is free if and only if it was free before the call and mm_malloc has not taken it whole |
| Pairs.NextPairIff | mm.c:241-326 | any one call keeps a heap without free neighbours if and only if it does not free right behind a free block; for mm_realloc too the condition is on the heap before the call |
| Pairs.NeverPairIff | mm.c:241-488 | over every run: no state has two neighbouring free blocks if and only if no block is ever freed right behind a free one |
| Pairs.InitNoPair | mm.c:191-233 | the runs from mm_init start without free neighbours |
| Wrapped.MallocNoneFrees | mm.c:241-280 | for an adjusted size of zero, NULL exactly when nothing is free and no page fits; otherwise a block that stays free, with all allocated blocks and live requests as they were |
| Wrapped.MallocNoneFound | mm.c:255-267 | for an adjusted size of zero, exactly: the head of the lowest list that is not empty, merged with a free block behind it, stays free and is on no list, or alone on another one |
| Wrapped.MallocNoneExtended | mm.c:269-280 | when no block is free, the heap is extended by a page, if there is room, and the new block is handed out and stays free and listed |
| Wrapped.MallocNoneSoundIff | mm.c:258-266 | for an adjusted size of zero the lists are in order afterwards if and only if nothing was free, or the block merges with a free block behind it into another class whose list holds no other block |
| Wrapped.SurvivesIff | mm.c:241-280 | both conditions for survival, on the heap before the call, are equivalent to a sound heap with an allocated block before the one handed out |
| Wrapped.WrapLosesHeap | mm.c:241-280 | from a fresh heap, mm_malloc(12) and then a size that wraps to zero leave all seventeen lists empty while a block is free, although the block before is allocated |
| Wrapped.OnlyBlockLost | mm.c:258-266 | on any heap whose only free block is the last one, a size that wraps to zero takes that block off every list |
| Wrapped.SurvivesPossible | mm.c:241-280 | a heap with free blocks that does survive |
| Wrapped.SecondUnlink | mm.c:258-266 | the second remove_from_list then takes the block off its list for good, unless the block has moved to another list and is alone there |
| Wrapped.NothingStep | mm.c:466-477 | the four tag writes for an adjusted size of zero change the word before the header and otherwise represent the same heap |
| Wrapped.DentHits | mm.c:126-127 | that word is the footer of the prologue, the footer of a free block or the last payload word of an allocated one |
| Wrapped.DentHarmlessIff | mm.c:466-477 | with the word overwritten the memory still represents the heap if and only if an allocated block lies before |
| Wrapped.CopyOverrunsIff | mm.c:315-319 | the copy of mm_realloc stays inside the new block for every request up to 2^32-12; for the last three sizes only from a block of 16 bytes into one of 24 |
| Runs.WalkTiles | mm.c:717-722 | the walk by GET_NEXTBLOCK lands exactly on the break and meets exactly the blocks, in order; the sizes it reads add up |
| Runs.HeapWalk | mm.c:717-722 | the sizes met by the walk add up to mem_heapsize() - 16 |
| Runs.ViewsAgree | mm.c:705-722 | a block met by the walk is marked free exactly when it is on a list, on that of its class alone, and marked allocated exactly when it is live |
| Runs.ListTraversal | mm.c:526-539 | following next links from a list head meets its nodes once each and then NULL, and prev links lead back |
| Usage.LiveBelowHeap | mdriver.c:704-784 | the live requests, each with a header word, fit into the heap behind the prologue |
| Trace.NeverBad | mdriver.c:576-691 | for every trace, lost data is expected only at a resize whose id byte a signed char cannot match, and without such a resize the only other verdict than acceptance is a failed request |
| Trace.AcceptedIff | mdriver.c:576-691 | every well-formed trace is accepted if and only if no resized id has a byte that a plain char cannot match and no request fails |
| Trace.ExpectedJudged | mdriver.c:576-691 | the verdict from single operations: every operation before the one it names was performed without failing or clashing, and that one fails or clashes; acceptance means that all were |
| Trace.CharRange | mdriver.c:659-667 | an unsigned char holds the byte, a signed one the value from -128 to 127 that agrees with it modulo 256 |
| Trace.ClashIff | mdriver.c:659-667 | an id clashes if and only if a plain char that holds its low byte is not equal to it |
| Trace.WellFormedIff | mdriver.c:608-681 | a trace is well formed if and only if each operation has a size that is not negative and an id in range, or one that was allocated and not freed since |
| Trace.PerformCalls | mdriver.c:608-681 | one operation is one call of the allocator, and the id then holds its result |
| Trace.VerdictInRoom | mdriver.c:576-691 | when the region has room for a page or a block per request, a trace of positive sizes gets the verdict its ids decide: accepted if and only if no id byte clashes, else lost data at the first that does |
| Trace.SignedCharLosesData | mdriver.c:659-667 | the trace that allocates and resizes id 128 is rejected with signed chars and accepted with unsigned ones |
| Trace.PerformTotal | mdriver.c:719-781 | the live total moves by exactly the size of the request |
| Trace.PeakBelowHeap | mdriver.c:704-784 | the peak of the live total is strictly below the final heap size |
| Trace.PeakMeasured | mdriver.c:704-784 | the peak from single operations: no live total after any operation of the run is above it, and it is zero or one of them; the run goes on to the first request that fails |
| Ranges.TouchesIff | mdriver.c:404-413 | the overlap test finds every shared byte except when the new range reaches beyond the old one on both sides |
| Ranges.TouchesMisses | mdriver.c:404-413 | an overlap of that kind which add_range accepts |
| Ranges.CheckOkIff | mdriver.c:387-413 | add_range accepts a payload if and only if it is aligned, lies inside the heap and shares a byte only with listed ranges that it encloses on both sides |
| Ranges.DroppedAt | mdriver.c:432-447 | dropping a range removes the first one with that start and keeps the order of the rest |
| Ranges.RangeList.AddRange | mdriver.c:378-427 | the three checks in order, and a new node in front exactly when they pass |
| Ranges.RangeList.RemoveRange | mdriver.c:432-447 | unlinks exactly the first node that starts at the address, or nothing |
| Driver.MatchesAdd | mdriver.c:415-426 | the list then holds exactly one range per live pointer, the new one included |
| Driver.MatchesDrop | mdriver.c:432-447 | remove_range deletes exactly the range of the pointer that is given up |
| Driver.CheckPasses | mdriver.c:387-413 | add_range never rejects the payload of a live pointer |
| Driver.Driver.SameData | mdriver.c:659-667 | the comparison loop succeeds exactly when all bytes compare equal as plain chars |
| Driver.Driver.DoAlloc | mdriver.c:610-636 | the ALLOC case performs the specified operation and keeps range list, trace arrays and stamped payloads in order |
| Driver.Driver.DoRealloc | mdriver.c:638-673 | the REALLOC case likewise; it reports lost data only for an id byte that clashes |
| Driver.Driver.DoFree | mdriver.c:675-681 | the FREE case likewise |
| Driver.Driver.EvalMmValid | mdriver.c:576-691 | for every well-formed trace of any length the verdict is the one that the single operations decide: no misaligned, outside, overlapping or lost payload; accepted if and only if no id byte clashes and no request fails, and, with room for every request, if and only if no id byte clashes |
| Driver.Driver.UseOp | mdriver.c:719-781 | total_size is the sum of the live requests after each operation, max_total_size its peak |
| Driver.Driver.EvalMmUtil | mdriver.c:704-784 | max_total_size is the largest live total after any operation of the run, zero if there is none, and strictly below mem_heapsize(), so utilization is below one |
| Sampler.SortedIsSort | fcyc.c:81-87 | repeated insertion yields the samples in ascending order, with their multiplicities |
| Sampler.TakeInsert | fcyc.c:67-88 | only the best k so far matter for the best k after one more sample |
| Sampler.BestAreSmallest | fcyc.c:67-88 | the best k are ascending, are among the samples, and nothing left out is smaller |
| Sampler.ConvergedIff | fcyc.c:93-97 | the samples have converged if and only if at least k of all samples taken are at most (1 + epsilon) times the least |
| Sampler.KBest.Sink | fcyc.c:81-87 | the swapping loop inserts the element into the front of the buffer |
| Sampler.KBest.AddSample | fcyc.c:67-88 | the buffer again holds the k smallest of all samples, in ascending order |
| Sampler.KBest.HasConverged | fcyc.c:93-97 | true exactly when at least k of all samples taken are at most (1 + epsilon) times the least one |
| Sampler.KBest.Fcyc | fcyc.c:128-167 | stops at the first converged sample count or at max(1, maxsamples), and returns the least measurement |

## Left out

- get_node_listindex, TRACE, debuggable_memset, test_main and the optional overwrite scan of mm.c: never
  called or debugging only.
- read_trace, free_trace, main, printing and error reporting of mdriver.c: file input, command line and
  output; app_error is a failed result.
- eval_mm_speed, eval_libc_valid and eval_libc_speed: timing loops, or calls into a malloc that cannot be
  seen.
- clock.c, ftimer.c, fsecs.c and the cache clearing of fcyc.c: hardware counters and timers.
- Calls outside the contract of the allocator: freeing or resizing a pointer that is not live, and calls on
  a heap that has not survived a size that wrapped to zero.
- Mm.Allocator.MmRealloc: does not follow a memcpy that would write past the new block; it reports exactly
  when one would.
- Mm.Allocator.MmInit: page sizes are at most 2^30, the largest power of two that getpagesize() can return
  as an int, and a write to address 2^32-1 is reported, not followed.
- mem_deinit, and giving storage back to the system: mem_init reuses one array, with arbitrary contents.
- Memlib.MemLib.MemSbrk: addresses do not wrap around at 2^32 when the increment is added to the break,
  because C leaves pointer arithmetic beyond the region undefined.
- Sampler.KBest.AddSample: samples are reals, so rounding and NaN of C doubles are not modelled.
