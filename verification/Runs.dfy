/** What holds in every state that any sequence of public calls can reach. */
module Runs {
  import opened Words
  import opened SizeClass
  import opened HeapSpec
  import opened HeapOps
  import opened Layout
  import opened Steps

  datatype Call = CallMalloc(size: int) | CallFree(p: int) | CallRealloc(p: int, size: int)

  /** Only live pointers are freed or resized, and sizes do not wrap. */
  predicate Legal(h: Heap, c: Call) {
    match c
    case CallMalloc(size) => 0 <= size <= MAX_REQUEST
    case CallFree(p) => p in h.req
    case CallRealloc(p, size) => p in h.req && 0 <= size <= MAX_REQUEST
  }

  ghost function Next(h: Heap, c: Call): Heap
    requires Quiescent(h) && Legal(h, c)
  {
    match c
    case CallMalloc(size) => Malloc(h, size).0
    case CallFree(p) => assert IsAlloc(h, p); Freed(h, p)
    case CallRealloc(p, size) => Realloc(h, p, size).0
  }

  lemma NextKeeps(h: Heap, c: Call)
    requires Quiescent(h) && Legal(h, c)
    ensures Quiescent(Next(h, c))
    ensures Next(h, c).lo == h.lo && Next(h, c).limit == h.limit && Next(h, c).page == h.page
  {
    hide Sound, AllBitsSet, Malloc, Freed, Realloc;
    match c
    case CallMalloc(size) => MallocKeeps(h, size);
    case CallFree(p) => assert IsAlloc(h, p); FreedKeeps(h, p);
    case CallRealloc(p, size) => ReallocKeeps(h, p, size);
  }

  /** `h'` is reached from `h` by the calls `cs`, each legal when it is made. */
  ghost predicate Reaches(h: Heap, cs: seq<Call>, h': Heap)
    requires Quiescent(h)
    decreases |cs|
  {
    if cs == [] then h' == h
    else Legal(h, cs[0]) && (NextKeeps(h, cs[0]); Reaches(Next(h, cs[0]), cs[1..], h'))
  }

  /** In every reachable state the blocks tile the heap, the lists hold exactly the free blocks,
      every PREVALLOC bit of a block is set, a clear one in the epilogue means that the last block is
      free, and every live block has the adjusted size of its request or eight bytes more. */
  lemma {:induction false} ReachableQuiescent(h: Heap, cs: seq<Call>, h': Heap)
    requires Quiescent(h) && Reaches(h, cs, h')
    ensures Quiescent(h') && h'.lo == h.lo && h'.limit == h.limit && h'.page == h.page
    decreases |cs|
  {
    hide Sound, AllBitsSet, Live, Next;
    if cs != [] {
      NextKeeps(h, cs[0]);
      ReachableQuiescent(Next(h, cs[0]), cs[1..], h');
    }
  }

  // ---- fresh, disjoint allocations ---------------------------------------------------------------

  predicate Apart(p: int, n: int, q: int, k: int) {
    p + n <= q || q + k <= p
  }

  /** Two live allocations never share a byte, and each lies aligned inside the heap. */
  lemma LiveApart(h: Heap, p: int, q: int)
    requires Quiescent(h) && p in h.req && q in h.req
    ensures p % 8 == 0 && h.lo <= p && p + h.req[p] <= h.hi - 4
    ensures p != q ==> Apart(p, h.req[p], q, h.req[q])
  {
    RequestFits(h, p);
    RequestFits(h, q);
  }

  /** mm_malloc returns a fresh range of the requested size, apart from every live one. */
  lemma MallocFresh(h: Heap, size: int)
    requires Quiescent(h) && 0 <= size <= MAX_REQUEST && Malloc(h, size).1 != 0
    ensures var (h', p) := Malloc(h, size);
      && p !in h.req && h'.req == h.req[p := size]
      && p % 8 == 0 && h'.lo <= p && p + size <= h'.hi - 4
      && forall q :: q in h.req ==> Apart(p, size, q, h.req[q])
  {
    hide Sound, AllBitsSet, Malloc;
    MallocKeeps(h, size);
    var (h', p) := Malloc(h, size);
    forall q | q in h.req
      ensures Apart(p, size, q, h.req[q])
    {
      LiveApart(h', p, q);
    }
    LiveApart(h', p, p);
  }

  /** mm_malloc answers NULL exactly for a zero request, or when no list head fits and the region
      has no room for the larger of the block and the page extension. */
  lemma MallocNullIff(h: Heap, size: int)
    requires Quiescent(h) && 0 <= size <= MAX_REQUEST
    ensures var adj := AdjustByteSize(size);
      Malloc(h, size).1 == 0 <==>
        || size == 0
        || (&& (forall k :: ListIndex(adj) <= k < FREELIST_COUNT ==> !HeadFits(h, k, adj))
            && h.hi + Max(adj, h.page) > h.limit)
  {
    if size > 0 {
      var adj := AdjustByteSize(size);
      AdjustIsLeast(size);
      var p := FindFit(h, adj, ListIndex(adj));
      FindFitLowest(h, adj, ListIndex(adj));
      var n := Max(adj, h.page);
      hide Tiled, BitsSound, Indexed, Allocated, Extended;
      if p == 0 && h.hi + n <= h.limit {
        assert CanGrow(h, n) by { PageFits(h, adj); }
        ExtendedSound(h, n);
        ExtensionPositive(h, n);
      }
    }
  }

  /** The heap grows by at most the larger of the adjusted size and the page. */
  lemma MallocGrowth(h: Heap, size: int)
    requires Quiescent(h) && 0 <= size <= MAX_REQUEST
    ensures var h' := Malloc(h, size).0;
      h.hi <= h'.hi <= h.hi + (if size == 0 then 0 else Max(AdjustByteSize(size), h.page))
  {
    if size > 0 {
      var adj := AdjustByteSize(size);
      AdjustIsLeast(size);
      var p := FindFit(h, adj, ListIndex(adj));
      FindFitLowest(h, adj, ListIndex(adj));
      var n := Max(adj, h.page);
      PageFits(h, adj);
      hide Tiled, BitsSound, Indexed, Allocated, Extended;
      if p != 0 {
        AllocatedBlocks(h, p, adj);
      } else if h.hi + n <= h.limit {
        ExtendedSound(h, n);
        ExtendedBlocks(h, n);
        AllocatedBlocks(Extended(h, n), ExtensionPoint(h, n), adj);
      }
    }
  }

  // ---- live blocks keep their size --------------------------------------------------------------------

  lemma MallocSizes(h: Heap, size: int, q: int)
    requires Quiescent(h) && 0 <= size <= MAX_REQUEST && q in h.req
    ensures IsAlloc(h, q) && IsAlloc(Malloc(h, size).0, q) && Malloc(h, size).0.blocks[q].size == h.blocks[q].size
  {
    assert IsAlloc(h, q);
    if size > 0 {
      var adj := AdjustByteSize(size);
      AdjustIsLeast(size);
      var p := FindFit(h, adj, ListIndex(adj));
      FindFitLowest(h, adj, ListIndex(adj));
      var n := Max(adj, h.page);
      PageFits(h, adj);
      hide Tiled, BitsSound, Indexed, Allocated, Extended;
      if p != 0 {
        AllocatedBlocks(h, p, adj);
      } else if h.hi + n <= h.limit {
        ExtendedSound(h, n);
        ExtendedBlocks(h, n);
        AllocatedBlocks(Extended(h, n), ExtensionPoint(h, n), adj);
      }
    }
  }

  lemma FreedSizes(h: Heap, p: int, q: int)
    requires Quiescent(h) && p in h.req && q in h.req && p != q
    ensures IsAlloc(h, p) && IsAlloc(h, q) && IsAlloc(Freed(h, p), q) && Freed(h, p).blocks[q].size == h.blocks[q].size
  {
    assert IsAlloc(h, p) && IsAlloc(h, q);
    ReleasedSound(h, p);
    CoalescedAlloc(Released(h, p), p);
  }

  /** A block keeps its size from the call that allocates it to the call that frees it. */
  lemma LiveBlockFixed(h: Heap, c: Call, q: int)
    requires Quiescent(h) && Legal(h, c) && q in h.req && q in Next(h, c).req
    ensures q in h.blocks && q in Next(h, c).blocks && Next(h, c).blocks[q].size == h.blocks[q].size
    ensures Next(h, c).req[q] == h.req[q]
  {
    hide Sound, AllBitsSet, Malloc, Freed;
    match c
    case CallMalloc(size) =>
      MallocKeeps(h, size);
      MallocSizes(h, size, q);
    case CallFree(p) =>
      FreedKeeps(h, p);
      FreedSizes(h, p, q);
    case CallRealloc(p, size) =>
      MallocKeeps(h, size);
      MallocSizes(h, size, q);
      var (h', r) := Malloc(h, size);
      if r != 0 {
        FreedKeeps(h', p);
        FreedSizes(h', p, q);
      }
  }

  /** Pointer `q` is live in every state of the run. */
  ghost predicate LiveThroughout(h: Heap, cs: seq<Call>, h': Heap, q: int)
    requires Quiescent(h) && Reaches(h, cs, h')
    decreases |cs|
  {
    q in h.req && (cs == [] || (NextKeeps(h, cs[0]); LiveThroughout(Next(h, cs[0]), cs[1..], h', q)))
  }

  /** Over every run: as long as a pointer stays live, its request and the size of its block stay what
      they were, and the size remains the adjusted one or eight bytes more. */
  lemma {:induction false} LiveRunFixed(h: Heap, cs: seq<Call>, h': Heap, q: int)
    requires Quiescent(h) && Reaches(h, cs, h') && LiveThroughout(h, cs, h', q)
    ensures q in h.blocks && q in h'.blocks && h'.blocks[q].size == h.blocks[q].size
    ensures q in h.req && q in h'.req && h'.req[q] == h.req[q] && Serves(h'.blocks[q], h'.req[q])
    decreases |cs|
  {
    hide Quiescent, Legal, Next, Serves;
    if cs == [] {
      LiveServes(h, q);
    } else {
      NextKeeps(h, cs[0]);
      LiveBlockFixed(h, cs[0], q);
      LiveRunFixed(Next(h, cs[0]), cs[1..], h', q);
    }
  }

  lemma LiveServes(h: Heap, q: int)
    requires Quiescent(h) && q in h.req
    ensures q in h.blocks && Serves(h.blocks[q], h.req[q])
  {
    assert IsAlloc(h, q);
  }

  // ---- a fit that find_fit does not see ------------------------------------------------------------------

  /** Sixteen bytes free, sixteen allocated, twenty-four free: the free blocks share a class. */
  function SmallHead(): Heap {
    Heap(24, 80, 80, 16, true,
         map[24 := Block(16, false, true), 40 := Block(16, true, true), 56 := Block(24, false, true)],
         seq(FREELIST_COUNT, i => if i == 4 then [24, 56] else []), map[40 := 12])
  }

  /** A request of twenty bytes gets NULL, although a block of just its size is free. */
  lemma FitMissed()
    ensures var h := SmallHead();
      && Quiescent(h) && AdjustByteSize(20) == 24 && IsFree(h, 56) && h.blocks[56].size == 24
      && FindFit(h, 24, ListIndex(24)) == 0 && Malloc(h, 20) == (h, 0)
  {
    var h := SmallHead();
    SmallHeadQuiescent();
    SixteenIsFour();
    FourOfTwentyFour();
    hide Quiescent, Tiled, BitsSound, Indexed, ListIndex;
    assert AdjustByteSize(20) == 24;
    hide AdjustByteSize;
    NoFitIn(h, 24, 4);
  }

  lemma {:induction false} NoFitIn(h: Heap, adj: int, i: int)
    requires |h.lists| == FREELIST_COUNT && 0 <= i <= FREELIST_COUNT
    requires forall k :: i <= k < FREELIST_COUNT ==> !HeadFits(h, k, adj)
    ensures FindFit(h, adj, i) == 0
    decreases FREELIST_COUNT - i
  {
    if i < FREELIST_COUNT {
      NoFitIn(h, adj, i + 1);
    }
  }

  lemma FourOfTwentyFour()
    ensures ListIndex(24) == 4
  {
    assert Log2(24) == 1 + Log2(12);
    assert Log2(12) == 1 + Log2(6);
    assert Log2(6) == 1 + Log2(3);
    assert Log2(3) == 1 + Log2(1);
  }

  lemma SmallHeadTiled()
    ensures Tiled(SmallHead())
  {
  }

  lemma SmallHeadQuiescent()
    ensures Quiescent(SmallHead())
  {
    var h := SmallHead();
    SmallHeadTiled();
    hide Tiled;
    assert BitsSound(h);
    assert Serves(h.blocks[40], 12);
    assert Live(h);
    SixteenIsFour();
    FourOfTwentyFour();
    IndexedTwo(h, {}, 4, 24, 56);
  }

  // ---- where coalesce merges backward ---------------------------------------------------------------

  /** mm_free coalesces with the PREVALLOC bit of the freed block set: no backward merge. */
  lemma FreeMergesForward(h: Heap, p: int)
    requires Quiescent(h) && p in h.req
    ensures Sound(Released(h, p), {p}) && Released(h, p).blocks[p].prev && MergePoint(Released(h, p), p) == p
  {
    assert IsAlloc(h, p);
    ReleasedSound(h, p);
  }

  /** allocate gives its rest back with the PREVALLOC bit set: no backward merge. */
  lemma AllocateMergesForward(h: Heap, p: int, adj: int)
    requires Sound(h, {}) && IsFree(h, p) && Fits(h, p, adj) && Splits(h, p, adj)
    ensures Sound(Carved(h, p, adj), {p + adj}) && Carved(h, p, adj).blocks[p + adj].prev
    ensures MergePoint(Carved(h, p, adj), p + adj) == p + adj
  {
    AllocateSteps(h, p, adj);
  }

  /** extend_heap coalesces the block before the epilogue: no forward merge, so the case of two free
      neighbours is never reached; a backward merge happens exactly when the epilogue bit was clear. */
  lemma ExtendMergesBackward(h: Heap, n: int)
    requires Quiescent(h) && CanGrow(h, n)
    ensures !NextFree(Grown(h, n), h.hi)
    ensures ExtensionPoint(h, n) != h.hi <==> !h.epi
    ensures !h.epi ==> IsFree(h, ExtensionPoint(h, n)) && End(h, ExtensionPoint(h, n)) == h.hi
  {
  }

  /** The case is not reached, but it is not empty either: here is a sound heap with a free block on
      each side of the block to be coalesced, and its PREVALLOC bit clear. */
  lemma BothNeighboursPossible()
    ensures var h := ThreeFree();
      && Sound(h, {40}) && IsFree(h, 40) && !h.blocks[40].prev && NextFree(h, 40)
      && Coalesced(h, 40).blocks.Keys == {24} && End(Coalesced(h, 40), 24) == 72
  {
    var h := ThreeFree();
    ThreeFreeSound();
    hide Tiled, BitsSound, Indexed, Coalesced;
    CoalescedBlocks(h, 40);
    PrevFree(h, 40);
    assert forall q :: q in h.blocks <==> q == 24 || q == 40 || q == 56;
    assert MergePoint(h, 40) == 24;
    var g := Coalesced(h, 40);
    assert forall q :: q in g.blocks <==> q == 24;
  }

  /** Three free blocks of sixteen bytes, the outer ones listed. */
  function ThreeFree(): Heap {
    Heap(24, 72, 72, 16, true,
         map[24 := Block(16, false, true), 40 := Block(16, false, false), 56 := Block(16, false, true)],
         seq(FREELIST_COUNT, i => if i == 4 then [24, 56] else []), map[])
  }

  lemma ThreeFreeSound()
    ensures Sound(ThreeFree(), {40})
  {
    var h := ThreeFree();
    assert IsFree(h, 24) && End(h, 24) == 40;
    assert Tiled(h);
    assert BitsSound(h);
    hide Tiled, BitsSound;
    ThreeFreeIndexed();
  }

  lemma ThreeFreeIndexed()
    ensures Indexed(ThreeFree(), {40})
  {
    SixteenIsFour();
    IndexedTwo(ThreeFree(), {40}, 4, 24, 56);
  }

  /** A heap with two listed free blocks of one class. */
  lemma IndexedTwo(h: Heap, x: set<int>, i: int, a: int, b: int)
    requires |h.lists| == FREELIST_COUNT && 0 <= i < FREELIST_COUNT && a != b && a !in x && b !in x
    requires forall k :: 0 <= k < FREELIST_COUNT ==> h.lists[k] == if k == i then [a, b] else []
    requires forall p :: IsFree(h, p) <==> p == a || p == b || p in x
    requires a in h.blocks && h.blocks[a].size >= 0 && ListIndex(h.blocks[a].size) == i
    requires b in h.blocks && h.blocks[b].size >= 0 && ListIndex(h.blocks[b].size) == i
    ensures Indexed(h, x)
  {
    hide ListIndex;
    assert IsFree(h, a) && IsFree(h, b);
    assert h.lists[i][0] == a && h.lists[i][1] == b;
    forall k, p | 0 <= k < FREELIST_COUNT && p in h.lists[k]
      ensures k == i && (p == a || p == b)
    {
    }
  }

  lemma SixteenIsFour()
    ensures ListIndex(16) == 4
  {
    assert Log2(16) == 1 + Log2(8);
    assert Log2(8) == 1 + Log2(4);
    assert Log2(4) == 1 + Log2(2);
    assert Log2(2) == 1 + Log2(1);
  }

  /** What mm_free leaves around the freed block: it never merges to the left, and it merges once to
      the right.  So the block has a free left neighbour afterwards exactly when it had one before, and
      a free right neighbour exactly when the two blocks behind it were both free. */
  lemma FreeCoalescesIff(h: Heap, p: int)
    requires Quiescent(h) && p in h.req
    ensures IsAlloc(h, p) && IsFree(Freed(h, p), p)
    ensures FreeBefore(Freed(h, p), p) <==> FreeBefore(h, p)
    ensures NextFree(Freed(h, p), p) <==> NextFree(h, p) && NextFree(h, End(h, p))
  {
    hide Coalesced, Tiled, BitsSound, Indexed, AllBitsSet, Spans, FreeBefore;
    assert IsAlloc(h, p);
    var g := Released(h, p);
    ReleasedSound(h, p);
    FreeMergesForward(h, p);
    CoalescedSound(g, p);
    CoalescedBlocks(g, p);
    BlockSize(h, p);
    BlockSize(Freed(h, p), p);
    if NextFree(h, p) {
      BlockSize(h, End(h, p));
      SpansEnds(h, g, Freed(h, p), p, End(h, End(h, p)));
    } else {
      SpansEnds(h, g, Freed(h, p), p, End(h, p));
    }
  }

  /** The neighbours of a span are those of the blocks it covers. */
  lemma SpansEnds(h: Heap, g: Heap, h': Heap, p: int, e: int)
    requires Tiled(h) && Tiled(h') && p in h.blocks && g == Released(h, p) && Spans(g, h', p, e) && p < e
    ensures FreeBefore(h', p) <==> FreeBefore(h, p)
    ensures IsFree(h', e) <==> IsFree(h, e)
    ensures p in h'.blocks && End(h', p) == e
  {
    if FreeBefore(h, p) {
      var q := Predecessor(h, p);
      BlockSize(h, q);
      assert IsFree(h', q) && End(h', q) == p;
    }
    if FreeBefore(h', p) {
      var q := Predecessor(h', p);
      BlockSize(h', q);
      assert IsFree(h, q) && End(h, q) == p;
    }
  }

  // ---- free neighbours that stay apart ---------------------------------------------------------------

  /** `b` is the only free block, and it is the last one. */
  ghost predicate OnlyLast(h: Heap, b: int) {
    IsFree(h, b) && End(h, b) == h.hi && forall q :: IsFree(h, q) ==> q == b
  }

  lemma FitsOnlyLast(h: Heap, b: int, adj: nat)
    requires Sound(h, {}) && OnlyLast(h, b) && adj <= h.blocks[b].size
    ensures FindFit(h, adj, ListIndex(adj)) == b && b != 0
  {
    var j := ListIndex(h.blocks[b].size);
    ListIndexMonotone(adj, h.blocks[b].size);
    HeadIsBlock(h, j);
    assert HeadFits(h, j, adj);
    FindFitLowest(h, adj, ListIndex(adj));
  }

  /** The only free block loses its front, and what is behind stays the only free block. */
  ghost predicate CarvedOff(h: Heap, h': Heap, b: int, adj: int) {
    && h'.hi == h.hi && OnlyLast(h', b + adj) && IsAlloc(h', b) && End(h', b) == b + adj
    && (forall q :: q != b && IsAlloc(h, q) ==> IsAlloc(h', q) && End(h', q) == End(h, q))
  }

  lemma AllocateLast(h: Heap, b: int, adj: int)
    requires Sound(h, {}) && OnlyLast(h, b) && Fits(h, b, adj) && Splits(h, b, adj)
    ensures CarvedOff(h, Allocated(h, b, adj), b, adj)
  {
  }

  /** A small request takes the front of the only free block. */
  lemma CarveLast(h: Heap, b: int, size: int)
    requires Quiescent(h) && OnlyLast(h, b) && 1 <= size <= MAX_REQUEST && h.blocks[b].size >= AdjustByteSize(size) + 16
    ensures Malloc(h, size).1 == b && CarvedOff(h, Malloc(h, size).0, b, AdjustByteSize(size))
  {
    hide Tiled, BitsSound, Indexed, AdjustByteSize, FindFit, Live, AllBitsSet, Allocated, OnlyLast;
    var adj := AdjustByteSize(size);
    AdjustIsLeast(size);
    LastIsFree(h, b);
    FitsOnlyLast(h, b, adj);
    AllocateLast(h, b, adj);
    var h1 := Allocated(h, b, adj);
    OnlyLastReq(h1, h1.req[b := size], b + adj);
  }

  lemma LastIsFree(h: Heap, b: int)
    requires OnlyLast(h, b)
    ensures IsFree(h, b)
  {
  }

  lemma OnlyLastReq(h: Heap, req: map<int, int>, b: int)
    requires OnlyLast(h, b)
    ensures OnlyLast(h.(req := req), b)
  {
    forall q | IsFree(h.(req := req), q)
      ensures q == b
    {
      assert IsFree(h, q);
    }
  }

  /** "No two neighbouring blocks are both free" is not an invariant: two small requests on a fresh
      heap, freed in the order they were made, leave such a pair. */
  lemma AdjacentFreeReachable(lo: int, limit: int, page: int) returns (h: Heap)
    requires CanInit(lo, limit, page) && page >= 64
    ensures Quiescent(InitHeap(lo, limit, page))
    ensures Reaches(InitHeap(lo, limit, page), [CallMalloc(12), CallMalloc(12), CallFree(lo), CallFree(lo + 16)], h)
    ensures IsFree(h, lo + 16) && FreeBefore(h, lo + 16)
  {
    InitQuiescent(lo, limit, page);
    FirstIsLast(lo, limit, page);
    hide Quiescent, InitHeap, CanInit, OnlyLast, Reaches, FreeBefore;
    h := PairFromLast(InitHeap(lo, limit, page), lo);
  }

  /** The same from any heap whose only free block is the last one. */
  lemma PairFromLast(h0: Heap, b: int) returns (h: Heap)
    requires Quiescent(h0) && OnlyLast(h0, b) && b in h0.blocks && h0.blocks[b].size >= 64
    ensures Reaches(h0, [CallMalloc(12), CallMalloc(12), CallFree(b), CallFree(b + 16)], h)
    ensures IsFree(h, b + 16) && FreeBefore(h, b + 16)
  {
    hide Quiescent, OnlyLast, CarvedOff, FreeBefore, Reaches, Leads;
    var h1 := CarveSmall(h0, b);
    var h2 := CarveSmall(h1, b + 16);
    CarvedTwice(h0, h1, h2, b);
    var h3;
    h3, h := FreeBoth(h2, b, b + 16);
    FourCalls(h0, CallMalloc(12), CallMalloc(12), CallFree(b), CallFree(b + 16), h1, h2, h3, h);
  }

  lemma CarvedTwice(h0: Heap, h1: Heap, h2: Heap, b: int)
    requires CarvedOff(h0, h1, b, 16) && CarvedOff(h1, h2, b + 16, 16)
    ensures IsAlloc(h2, b) && End(h2, b) == b + 16 && IsAlloc(h2, b + 16)
  {
  }

  /** Two neighbouring blocks, freed in the order of their addresses, stay apart. */
  lemma FreeBoth(h: Heap, p: int, q: int) returns (h1: Heap, h2: Heap)
    requires Quiescent(h) && p in h.req && q in h.req && IsAlloc(h, p) && IsAlloc(h, q) && End(h, p) == q
    ensures Leads(h, CallFree(p), h1) && Leads(h1, CallFree(q), h2)
    ensures IsFree(h2, q) && FreeBefore(h2, q)
  {
    hide Tiled, BitsSound, Indexed, AllBitsSet, Live, Freed;
    FreedKeeps(h, p);
    FreeCoalescesIff(h, p);
    FreeKeepsEnd(h, p);
    h1 := Freed(h, p);
    BlockGrows(h, p);
    FreeCoalescesIff(h1, q);
    h2 := Freed(h1, q);
    assert IsFree(h1, p) && End(h1, p) == q;
  }

  lemma BlockGrows(h: Heap, p: int)
    requires Quiescent(h) && p in h.req
    ensures p in h.blocks && End(h, p) != p
  {
    assert IsAlloc(h, p);
    BlockSize(h, p);
  }

  lemma FirstIsLast(lo: int, limit: int, page: int)
    requires CanInit(lo, limit, page)
    ensures var h := InitHeap(lo, limit, page); OnlyLast(h, lo) && h.blocks[lo].size == page
  {
  }

  /** A request of twelve bytes takes sixteen off the front of the only free block. */
  lemma CarveSmall(h: Heap, b: int) returns (h': Heap)
    requires Quiescent(h) && OnlyLast(h, b) && b in h.blocks && h.blocks[b].size >= 32
    ensures Leads(h, CallMalloc(12), h') && Quiescent(h') && h'.req == h.req[b := 12] && CarvedOff(h, h', b, 16)
    ensures OnlyLast(h', b + 16) && b + 16 in h'.blocks && h'.blocks[b + 16].size == h.blocks[b].size - 16
  {
    assert AdjustByteSize(12) == 16;
    hide Quiescent, AdjustByteSize, Malloc;
    CarveLast(h, b, 12);
    MallocKeeps(h, 12);
    h' := Malloc(h, 12).0;
    LastIsFree(h, b);
  }

  /** With an allocated block behind it, the freed block keeps its extent. */
  lemma FreeKeepsEnd(h: Heap, p: int)
    requires Quiescent(h) && p in h.req
    ensures IsAlloc(h, p) && (!NextFree(h, p) ==> IsFree(Freed(h, p), p) && End(Freed(h, p), p) == End(h, p))
  {
    hide Tiled, BitsSound, Indexed, AllBitsSet;
    assert IsAlloc(h, p);
    ReleasedSound(h, p);
    FreeMergesForward(h, p);
    CoalescedBlocks(Released(h, p), p);
    BlockSize(h, p);
  }

  /** The call is legal and leads to `h'`. */
  ghost predicate Leads(h: Heap, c: Call, h': Heap) {
    Quiescent(h) && Legal(h, c) && h' == Next(h, c)
  }

  lemma FourCalls(h0: Heap, c1: Call, c2: Call, c3: Call, c4: Call, h1: Heap, h2: Heap, h3: Heap, h4: Heap)
    requires Leads(h0, c1, h1) && Leads(h1, c2, h2) && Leads(h2, c3, h3) && Leads(h3, c4, h4)
    ensures Reaches(h0, [c1, c2, c3, c4], h4)
  {
    hide Quiescent, Next, Legal;
    assert Reaches(h3, [c4], h4) by { assert [c4][1..] == []; }
    assert Reaches(h2, [c3, c4], h4) by { assert [c3, c4][1..] == [c4]; }
    assert Reaches(h1, [c2, c3, c4], h4) by { assert [c2, c3, c4][1..] == [c3, c4]; }
    assert [c1, c2, c3, c4][1..] == [c2, c3, c4];
  }

  // ---- the heap walk ---------------------------------------------------------------------------------

  /** The payload addresses met by stepping with GET_NEXTBLOCK from `p` while below `e`. */
  function Walk(m: Mem, p: int, e: int): seq<int>
    decreases e - p
  {
    if p >= e || GetSize(Rd(m, p - 4)) == 0 then [] else [p] + Walk(m, p + GetSize(Rd(m, p - 4)), e)
  }

  /** Where that walk stops. */
  function WalkEnd(m: Mem, p: int, e: int): int
    decreases e - p
  {
    if p >= e || GetSize(Rd(m, p - 4)) == 0 then p else WalkEnd(m, p + GetSize(Rd(m, p - 4)), e)
  }

  function SizeSum(m: Mem, ps: seq<int>): int {
    if ps == [] then 0 else GetSize(Rd(m, ps[0] - 4)) + SizeSum(m, ps[1..])
  }

  ghost predicate Ascending(ps: seq<int>) {
    forall j, k :: 0 <= j < k < |ps| ==> ps[j] < ps[k]
  }

  lemma AscendingCons(p: int, ps: seq<int>)
    requires Ascending(ps) && forall q :: q in ps ==> p < q
    ensures Ascending([p] + ps)
  {
    var s := [p] + ps;
    forall j, k | 0 <= j < k < |s|
      ensures s[j] < s[k]
    {
      assert s[k] == ps[k - 1] && ps[k - 1] in ps;
      if j > 0 {
        assert s[j] == ps[j - 1];
      }
    }
  }

  /** The implicit walk through the headers lands exactly on the break, meets exactly the blocks,
      each once and in address order, and the sizes it reads add up to the distance. */
  lemma {:induction false} WalkTiles(m: Mem, h: Heap, p: int)
    requires Tiled(h) && Tags(m, h) && (p in h.blocks || p == h.hi)
    ensures WalkEnd(m, p, h.hi) == h.hi
    ensures Ascending(Walk(m, p, h.hi))
    ensures forall q :: q in Walk(m, p, h.hi) <==> q in h.blocks && p <= q
    ensures SizeSum(m, Walk(m, p, h.hi)) == h.hi - p
    decreases h.hi - p
  {
    hide Tiled, Tags;
    if p == h.hi {
      BreakLast(h);
    } else {
      var e := End(h, p);
      BlockSize(h, p);
      ReadTags(m, h, p);
      AdjoinsAt(h, p);
      WalkTiles(m, h, e);
      var w := Walk(m, e, h.hi);
      assert Walk(m, p, h.hi) == [p] + w;
      AscendingCons(p, w);
      assert ([p] + w)[1..] == w;
      forall q
        ensures q in [p] + w <==> q in h.blocks && p <= q
      {
        WalkStep(h, p, q);
      }
    }
  }

  lemma BreakLast(h: Heap)
    requires Tiled(h)
    ensures forall q :: q in h.blocks ==> q < h.hi
  {
  }

  lemma WalkStep(h: Heap, p: int, q: int)
    requires Tiled(h) && p in h.blocks
    ensures q in h.blocks && p <= q <==> q == p || (q in h.blocks && End(h, p) <= q)
  {
  }

  ghost predicate OnSomeList(lists: seq<seq<int>>, p: int) {
    exists i :: 0 <= i < |lists| && p in lists[i]
  }

  /** In every represented state the walk from the first block covers the heap: it lands on the
      break, and the sizes add up to mem_heapsize() - 16. */
  lemma HeapWalk(m: Mem, f: seq<int>, h: Heap)
    requires Quiescent(h) && Rep(m, f, h)
    ensures WalkEnd(m, h.lo, h.hi) == h.hi && Ascending(Walk(m, h.lo, h.hi))
    ensures SizeSum(m, Walk(m, h.lo, h.hi)) == (h.hi - (h.lo - 16)) - 16
  {
    hide BitsSound, Indexed, Live, AllBitsSet, Chains;
    WalkTiles(m, h, h.lo);
  }

  /** The three views of the heap agree: a block met by the walk is marked free exactly when it is on
      a list, namely on the list of its size class alone, and marked allocated exactly when it is live. */
  lemma ViewsAgree(m: Mem, f: seq<int>, h: Heap, p: int)
    requires Quiescent(h) && Rep(m, f, h)
    ensures p in Walk(m, h.lo, h.hi) && GetAlloc(Rd(m, p - 4)) == 0 <==> OnSomeList(h.lists, p)
    ensures p in Walk(m, h.lo, h.hi) && GetAlloc(Rd(m, p - 4)) == 1 <==> p in h.req
    ensures forall i :: 0 <= i < FREELIST_COUNT && p in h.lists[i] ==> i == ListIndex(GetSize(Rd(m, p - 4)))
  {
    hide BitsSound, AllBitsSet, Chains, Walk;
    WalkTiles(m, h, h.lo);
    WalkMember(m, h, p);
    FreeIffListed(h, p);
    hide Tiled, Indexed, Tags;
    assert p in h.req <==> IsAlloc(h, p);
  }

  lemma WalkMember(m: Mem, h: Heap, p: int)
    requires Tiled(h) && Tags(m, h)
    ensures p in h.blocks ==> h.lo <= p && GetAlloc(Rd(m, p - 4)) == (if h.blocks[p].alloc then 1 else 0)
    ensures p in h.blocks ==> GetSize(Rd(m, p - 4)) == h.blocks[p].size
  {
    if p in h.blocks {
      LoFirst(h, p);
      ReadTags(m, h, p);
    }
  }

  lemma FreeIffListed(h: Heap, p: int)
    requires Indexed(h, {})
    ensures IsFree(h, p) <==> OnSomeList(h.lists, p)
    ensures forall i :: 0 <= i < FREELIST_COUNT && p in h.lists[i] ==>
                        IsFree(h, p) && h.blocks[p].size >= 0 && i == ListIndex(h.blocks[p].size)
  {
  }

  // ---- following the links ---------------------------------------------------------------------------

  /** The node reached from `p` by following `k` next links. */
  function Hop(m: Mem, p: int, k: nat): int {
    if k == 0 then p else Rd(m, Hop(m, p, k - 1))
  }

  /** In memory, list `i` is a NULL-terminated chain without repetition: following next links from its
      head meets its nodes in order and then NULL, and each prev link leads back. */
  lemma {:induction false} ListTraversal(m: Mem, f: seq<int>, h: Heap, i: int, k: nat)
    requires Quiescent(h) && Rep(m, f, h) && 0 <= i < FREELIST_COUNT && k <= |h.lists[i]|
    ensures var l := h.lists[i];
      && Distinct(l) && 0 !in l
      && Hop(m, f[i], k) == (if k < |l| then l[k] else 0)
      && (k < |l| ==> Rd(m, l[k] + 4) == (if k == 0 then 0 else Hop(m, f[i], k - 1)))
  {
    hide Tiled, BitsSound, Tags, AllBitsSet, Live;
    ListNodes(h, {}, i);
    var l := h.lists[i];
    ChainOf(m, f, h.lists, i);
    if k > 0 {
      ListTraversal(m, f, h, i, k - 1);
      assert NodeAt(m, l, k - 1);
    }
    if k < |l| {
      assert NodeAt(m, l, k);
    }
  }
}
