/** Neighbouring free blocks.  free_block and coalesce never clear the PREVALLOC bit of the next header,
    so a block that is freed behind a free one stays apart from it; this is the only way in which two
    neighbouring free blocks come about. */
module Pairs {
  import opened Words
  import opened SizeClass
  import opened HeapSpec
  import opened HeapOps
  import opened Steps
  import opened Runs

  /** Blocks `a` and `b` are free neighbours. */
  predicate Pair(h: Heap, a: int, b: int) {
    IsFree(h, a) && End(h, a) == b && IsFree(h, b)
  }

  ghost predicate NoPair(h: Heap) {
    forall a, b :: !Pair(h, a, b)
  }

  /** Every pair of free neighbours has `p` as one of the two. */
  ghost predicate NoPairBut(h: Heap, p: int) {
    forall a, b :: Pair(h, a, b) ==> a == p || b == p
  }

  /** A pair that is left after coalescing block `p` was there before, with the block behind `p` in
      place of `p`; or it has a free block in front of `p`. */
  lemma CoalescedPair(g: Heap, p: int, a: int, b: int)
    requires Sound(g, {p}) && p in g.blocks && g.blocks[p].prev && Pair(Coalesced(g, p), a, b)
    ensures b == p ==> FreeBefore(g, p)
    ensures b != p ==> var a' := if a == p then End(g, p) else a; a' != p && Pair(g, a', b)
  {
    hide Tiled, BitsSound, Indexed, Coalesced;
    CoalescedBlocks(g, p);
    CoalescedSound(g, p);
    MergesHere(g, p);
    BlockSize(g, p);
    BlockSize(Coalesced(g, p), a);
    if b == p {
      assert IsFree(g, a) && End(g, a) == p;
    }
  }

  /** Coalescing a block with its PREVALLOC bit set removes every pair but those with a free block in
      front of it. */
  lemma CoalescedPairs(g: Heap, p: int)
    requires Sound(g, {p}) && p in g.blocks && g.blocks[p].prev && NoPairBut(g, p) && !FreeBefore(g, p)
    ensures NoPair(Coalesced(g, p))
  {
    hide Tiled, BitsSound, Indexed, Coalesced, FreeBefore;
    forall a, b
      ensures Pair(Coalesced(g, p), a, b) ==>
        b != p && var a' := if a == p then End(g, p) else a; a' != p && Pair(g, a', b)
    {
      if Pair(Coalesced(g, p), a, b) {
        CoalescedPair(g, p, a, b);
      }
    }
  }

  /** For a heap without free neighbours, mm_free makes none exactly when the block before is not free. */
  lemma FreedPairIff(h: Heap, p: int)
    requires Quiescent(h) && p in h.req && NoPair(h)
    ensures IsAlloc(h, p) && (NoPair(Freed(h, p)) <==> !FreeBefore(h, p))
  {
    hide Tiled, BitsSound, Indexed, AllBitsSet, Coalesced, FreeBefore;
    FreeCoalescesIff(h, p);
    if FreeBefore(h, p) {
      var q := Predecessor(Freed(h, p), p);
      assert Pair(Freed(h, p), q, p);
    } else {
      FreeMergesForward(h, p);
      ReleasedPairs(h, p);
      CoalescedPairs(Released(h, p), p);
    }
  }

  lemma ReleasedPairs(h: Heap, p: int)
    requires Tiled(h) && p in h.blocks
    ensures forall a, b :: Pair(Released(h, p), a, b) ==> a == p || b == p || Pair(h, a, b)
    ensures FreeBefore(Released(h, p), p) ==> FreeBefore(h, p)
  {
    if FreeBefore(Released(h, p), p) {
      var q := Predecessor(Released(h, p), p);
      assert IsFree(h, q) && End(h, q) == p;
    }
  }

  /** allocate leaves no pair when all pairs were around the block it takes. */
  lemma AllocatedPairs(h: Heap, p: int, adj: int)
    requires Sound(h, {}) && IsFree(h, p) && Fits(h, p, adj) && NoPairBut(h, p)
    ensures NoPair(Allocated(h, p, adj))
  {
    hide Tiled, BitsSound, Indexed, Coalesced;
    SeventeenLists(h, {});
    BlockSize(h, p);
    if Splits(h, p, adj) {
      AllocateMergesForward(h, p, adj);
      CarvedPairs(h, p, adj);
      CoalescedPairs(Carved(h, p, adj), p + adj);
    } else {
      TakenPairs(h, p);
    }
  }

  lemma TakenPairs(h: Heap, p: int)
    requires |h.lists| == FREELIST_COUNT && IsFree(h, p) && h.blocks[p].size > 0
    ensures forall a, b :: Pair(TakeWhole(Unlist(h, p), p), a, b) ==> a != p && b != p && Pair(h, a, b)
  {
  }

  lemma CarvedPairs(h: Heap, p: int, adj: int)
    requires Tiled(h) && |h.lists| == FREELIST_COUNT && IsFree(h, p) && Fits(h, p, adj) && Splits(h, p, adj)
    ensures var g, r := Carved(h, p, adj), p + adj;
      && !FreeBefore(g, r)
      && forall a, b :: Pair(g, a, b) && a != r && b != r ==> a != p && b != p && Pair(h, a, b)
  {
    SplitPoint(h, p, adj);
    forall q | q in h.blocks && q != p
      ensures End(h, q) != p + adj
    {
      assert if q < p then End(h, q) <= p else End(h, p) <= q;
      BlockSize(h, q);
    }
  }

  /** Extension makes at most a pair with the new block. */
  lemma ExtendedPairs(h: Heap, n: int)
    requires Sound(h, {}) && CanGrow(h, n)
    ensures var r := ExtensionPoint(h, n);
      forall a, b :: Pair(Extended(h, n), a, b) && a != r && b != r ==> Pair(h, a, b)
  {
    hide Tiled, BitsSound, Indexed, Coalesced;
    var g := Grown(h, n);
    GrownSound(h, n);
    CoalescedBlocks(g, h.hi);
    LastBlock(h, n);
    if !h.epi {
      PrevFree(g, h.hi);
    } else {
      MergesHere(g, h.hi);
    }
  }

  lemma LastBlock(h: Heap, n: int)
    requires Tiled(h) && CanGrow(h, n)
    ensures End(Grown(h, n), h.hi) == h.hi + n && !NextFree(Grown(h, n), h.hi)
  {
  }

  /** mm_malloc never makes a pair of free neighbours, extension included. */
  lemma MallocKeepsNoPair(h: Heap, size: int)
    requires Quiescent(h) && 0 <= size <= MAX_REQUEST && NoPair(h)
    ensures NoPair(Malloc(h, size).0)
  {
    if size > 0 {
      var adj := AdjustByteSize(size);
      AdjustIsLeast(size);
      hide Tiled, BitsSound, Indexed, Allocated, Extended, AdjustByteSize;
      var p := FindFit(h, adj, ListIndex(adj));
      FindFitLowest(h, adj, ListIndex(adj));
      var n := Max(adj, h.page);
      if p != 0 {
        AllocatedPairs(h, p, adj);
        NoPairReq(Allocated(h, p, adj), h.req[p := size]);
        AllocatedBlocks(h, p, adj);
      } else if h.hi + n <= h.limit {
        PageFits(h, adj);
        ExtendedSound(h, n);
        ExtendedPairs(h, n);
        ExtendedBlocks(h, n);
        var g, r := Extended(h, n), ExtensionPoint(h, n);
        AllocatedPairs(g, r, adj);
        AllocatedBlocks(g, r, adj);
        NoPairReq(Allocated(g, r, adj), h.req[r := size]);
      }
    }
  }

  lemma NoPairReq(h: Heap, req: map<int, int>)
    requires NoPair(h)
    ensures NoPair(h.(req := req))
  {
    forall a, b | Pair(h.(req := req), a, b)
      ensures false
    {
      assert Pair(h, a, b);
    }
  }

  // ---- the block before, across mm_malloc -------------------------------------------------------------

  lemma OneBefore(h: Heap, a: int, b: int)
    requires Tiled(h) && a in h.blocks && b in h.blocks && End(h, a) == End(h, b)
    ensures a == b
  {
  }

  /** Coalescing does not change whether the block before an allocated one is free. */
  lemma CoalescedBefore(g: Heap, p: int, t: int)
    requires Sound(g, {p}) && p in g.blocks && IsAlloc(g, t)
    ensures FreeBefore(Coalesced(g, p), t) <==> FreeBefore(g, t)
  {
    hide Tiled, BitsSound, Indexed, Coalesced;
    CoalescedBlocks(g, p);
    CoalescedSpansFree(g, p, t);
    StartsFree(g, p);
    var h', r := Coalesced(g, p), MergePoint(g, p);
    var last := if NextFree(g, p) then End(g, p) else p;
    assert IsFree(g, last) && End(g, last) == End(h', r) && IsFree(h', r);
    if FreeBefore(g, t) {
      var q := Predecessor(g, t);
      BlockSize(g, q);
      BlockSize(g, last);
      BlocksApart(g, q, last);
      if End(g, last) == t {
        assert IsFree(h', r) && End(h', r) == t;
      } else {
        assert IsFree(h', q) && End(h', q) == t;
      }
    }
    if FreeBefore(h', t) {
      var q := Predecessor(h', t);
      assert if q == r then End(g, last) == t else IsFree(g, q) && End(g, q) == t;
    }
  }

  lemma CarvedBefore(h: Heap, p: int, adj: int, t: int)
    requires Tiled(h) && |h.lists| == FREELIST_COUNT && IsFree(h, p) && Fits(h, p, adj) && Splits(h, p, adj)
    requires IsAlloc(h, t)
    ensures IsAlloc(Carved(h, p, adj), t)
    ensures FreeBefore(Carved(h, p, adj), t) <==> FreeBefore(h, t)
  {
    var g, r := Carved(h, p, adj), p + adj;
    SplitPoint(h, p, adj);
    hide Tiled;
    if FreeBefore(h, t) {
      var q := Predecessor(h, t);
      var q' := if q == p then r else q;
      assert IsFree(g, q') && End(g, q') == t;
    }
    if FreeBefore(g, t) {
      var q := Predecessor(g, t);
      var q' := if q == r then p else q;
      assert IsFree(h, q') && End(h, q') == t;
    }
  }

  lemma TakenBefore(h: Heap, p: int, t: int)
    requires Tiled(h) && |h.lists| == FREELIST_COUNT && IsFree(h, p) && h.blocks[p].size >= 0
    ensures FreeBefore(TakeWhole(Unlist(h, p), p), t) <==> FreeBefore(h, t) && End(h, p) != t
  {
    var g := TakeWhole(Unlist(h, p), p);
    if FreeBefore(g, t) {
      var q := Predecessor(g, t);
      assert IsFree(h, q) && End(h, q) == t;
      if End(h, p) == t {
        OneBefore(h, p, q);
      }
    }
    if FreeBefore(h, t) && End(h, p) != t {
      var q := Predecessor(h, t);
      assert IsFree(g, q) && End(g, q) == t;
    }
  }

  /** After allocate the block before an allocated one is free exactly when it was, and was not the
      block taken, or was split. */
  lemma AllocatedBefore(h: Heap, p: int, adj: int, t: int)
    requires Sound(h, {}) && IsFree(h, p) && Fits(h, p, adj) && IsAlloc(h, t)
    ensures FreeBefore(Allocated(h, p, adj), t) <==> FreeBefore(h, t) && !(End(h, p) == t && !Splits(h, p, adj))
  {
    hide Tiled, BitsSound, Indexed, Coalesced, FreeBefore;
    SeventeenLists(h, {});
    BlockSize(h, p);
    AllocateSteps(h, p, adj);
    if Splits(h, p, adj) {
      CarvedBefore(h, p, adj, t);
      CoalescedBefore(Carved(h, p, adj), p + adj, t);
    } else {
      TakenBefore(h, p, t);
    }
  }

  lemma ExtendedBefore(h: Heap, n: int, t: int)
    requires Sound(h, {}) && CanGrow(h, n) && IsAlloc(h, t)
    ensures FreeBefore(Extended(h, n), t) <==> FreeBefore(h, t)
  {
    hide Tiled, BitsSound, Indexed, Coalesced, FreeBefore;
    GrownSound(h, n);
    GrownBefore(h, n, t);
    CoalescedBefore(Grown(h, n), h.hi, t);
  }

  lemma GrownBefore(h: Heap, n: int, t: int)
    requires Tiled(h) && CanGrow(h, n) && IsAlloc(h, t)
    ensures IsAlloc(Grown(h, n), t) && (FreeBefore(Grown(h, n), t) <==> FreeBefore(h, t))
  {
    var g := Grown(h, n);
    BreakIsNoBlock(h);
    BlockSize(h, t);
    hide Tiled;
    if FreeBefore(h, t) {
      var q := Predecessor(h, t);
      assert IsFree(g, q) && End(g, q) == t;
    }
    if FreeBefore(g, t) {
      var q := Predecessor(g, t);
      assert IsFree(h, q) && End(h, q) == t;
    }
  }

  /** find_fit takes the block right before `t`, and allocate takes it whole. */
  ghost predicate TakesBefore(h: Heap, size: int, t: int)
    requires Quiescent(h) && 0 <= size <= MAX_REQUEST
  {
    SeventeenLists(h, {});
    var adj := AdjustByteSize(size);
    var f := FindFit(h, adj, ListIndex(adj));
    f != 0 && f in h.blocks && End(h, f) == t && !Splits(h, f, adj)
  }

  /** After mm_malloc the block before an allocated one is free exactly when it was before the call and
      was not taken whole. */
  lemma MallocBeforeIff(h: Heap, size: int, t: int)
    requires Quiescent(h) && 0 <= size <= MAX_REQUEST && t in h.req && Malloc(h, size).1 != 0
    ensures FreeBefore(Malloc(h, size).0, t) <==> FreeBefore(h, t) && !TakesBefore(h, size, t)
  {
    var adj := AdjustByteSize(size);
    AdjustIsLeast(size);
    assert IsAlloc(h, t);
    hide BitsSound, Indexed, Allocated, Extended, AdjustByteSize, FreeBefore;
    var f := FindFit(h, adj, ListIndex(adj));
    FindFitLowest(h, adj, ListIndex(adj));
    var n := Max(adj, h.page);
    if f != 0 {
      AllocatedBefore(h, f, adj, t);
      BeforeReq(Allocated(h, f, adj), h.req[f := size], t);
      AllocatedBlocks(h, f, adj);
    } else {
      PageFits(h, adj);
      ExtendedSound(h, n);
      ExtendedBlocks(h, n);
      ExtendedBefore(h, n, t);
      var g, r := Extended(h, n), ExtensionPoint(h, n);
      BlockSize(h, t);
      ExtensionLast(h, n);
      AllocatedBefore(g, r, adj, t);
      AllocatedBlocks(g, r, adj);
      BeforeReq(Allocated(g, r, adj), h.req[r := size], t);
    }
  }

  lemma ExtensionLast(h: Heap, n: int)
    requires Sound(h, {}) && CanGrow(h, n)
    ensures var g, r := Extended(h, n), ExtensionPoint(h, n); r in g.blocks && End(g, r) == h.hi + n
  {
    hide Tiled, BitsSound, Indexed, Coalesced;
    GrownSound(h, n);
    CoalescedBlocks(Grown(h, n), h.hi);
    LastBlock(h, n);
  }

  lemma BeforeReq(h: Heap, req: map<int, int>, t: int)
    ensures FreeBefore(h.(req := req), t) <==> FreeBefore(h, t)
  {
    var g := h.(req := req);
    if FreeBefore(h, t) {
      var q := Predecessor(h, t);
      assert IsFree(g, q) && End(g, q) == t;
    }
    if FreeBefore(g, t) {
      var q := Predecessor(g, t);
      assert IsFree(h, q) && End(h, q) == t;
    }
  }

  // ---- over runs -------------------------------------------------------------------------------

  /** The call frees a block right behind a free one.  mm_realloc frees after its nested mm_malloc, which
      may have taken the block before whole. */
  ghost predicate FreesBehindFree(h: Heap, c: Call)
    requires Quiescent(h) && Legal(h, c)
  {
    match c
    case CallMalloc(_) => false
    case CallFree(p) => FreeBefore(h, p)
    case CallRealloc(p, size) => Malloc(h, size).1 != 0 && FreeBefore(h, p) && !TakesBefore(h, size, p)
  }

  /** One call keeps a heap free of pairs exactly when it does not free behind a free block. */
  lemma NextPairIff(h: Heap, c: Call)
    requires Quiescent(h) && Legal(h, c) && NoPair(h)
    ensures NoPair(Next(h, c)) <==> !FreesBehindFree(h, c)
  {
    hide Sound, AllBitsSet, Live, Malloc, Freed, NoPair, FreeBefore, TakesBefore;
    match c
    case CallMalloc(size) =>
      MallocKeepsNoPair(h, size);
    case CallFree(p) =>
      FreedPairIff(h, p);
    case CallRealloc(p, size) =>
      MallocKeeps(h, size);
      MallocKeepsNoPair(h, size);
      if Malloc(h, size).1 != 0 {
        FreedPairIff(Malloc(h, size).0, p);
        MallocBeforeIff(h, size, p);
      }
  }

  /** No state of the run has free neighbours. */
  ghost predicate NeverPair(h: Heap, cs: seq<Call>, h': Heap)
    requires Quiescent(h) && Reaches(h, cs, h')
    decreases |cs|
  {
    NoPair(h) && (cs == [] || (NextKeeps(h, cs[0]); NeverPair(Next(h, cs[0]), cs[1..], h')))
  }

  /** No call of the run frees behind a free block. */
  ghost predicate NeverBehindFree(h: Heap, cs: seq<Call>, h': Heap)
    requires Quiescent(h) && Reaches(h, cs, h')
    decreases |cs|
  {
    cs == [] || (!FreesBehindFree(h, cs[0]) && (NextKeeps(h, cs[0]); NeverBehindFree(Next(h, cs[0]), cs[1..], h')))
  }

  /** Over every run: no state has two neighbouring free blocks if and only if no block is ever freed
      right behind a free one. */
  lemma {:induction false} NeverPairIff(h: Heap, cs: seq<Call>, h': Heap)
    requires Quiescent(h) && Reaches(h, cs, h') && NoPair(h)
    ensures NeverPair(h, cs, h') <==> NeverBehindFree(h, cs, h')
    decreases |cs|
  {
    hide Quiescent, Legal, Next, NoPair, FreesBehindFree;
    if cs != [] {
      NextKeeps(h, cs[0]);
      NextPairIff(h, cs[0]);
      if !FreesBehindFree(h, cs[0]) {
        NeverPairIff(Next(h, cs[0]), cs[1..], h');
      } else {
        assert !NeverPair(Next(h, cs[0]), cs[1..], h');
      }
    }
  }

  /** The heap that mm_init leaves has one free block, so the runs from it start without a pair. */
  lemma InitNoPair(lo: int, limit: int, page: int)
    requires CanInit(lo, limit, page)
    ensures NoPair(InitHeap(lo, limit, page))
  {
  }
}
