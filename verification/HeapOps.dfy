/** The public operations of mm.c as functions on the heap value, and the invariants that every
    run of them keeps. */
module HeapOps {
  import opened Words
  import opened SizeClass
  import opened HeapSpec

  // ---- allocate --------------------------------------------------------------------------

  /** The front of a block becomes allocated, the rest a free block with its PREVALLOC bit set. */
  function Split(h: Heap, p: int, adj: int): Heap
    requires p in h.blocks
  {
    h.(blocks := h.blocks[p := Block(adj, true, h.blocks[p].prev)]
                         [p + adj := Block(h.blocks[p].size - adj, false, true)])
  }

  /** The whole block becomes allocated, and the bit after it is set. */
  function TakeWhole(h: Heap, p: int): Heap
    requires p in h.blocks
  {
    var n := End(h, p);
    var taken := h.blocks[p := h.blocks[p].(alloc := true)];
    if n in h.blocks then h.(blocks := taken[n := h.blocks[n].(prev := true)])
    else h.(blocks := taken, epi := true)
  }

  predicate Fits(h: Heap, p: int, adj: int) {
    p in h.blocks && adj % 8 == 0 && 16 <= adj <= h.blocks[p].size
  }

  predicate Splits(h: Heap, p: int, adj: int)
    requires p in h.blocks
  {
    h.blocks[p].size - adj >= 16
  }

  lemma FitsLeast(h: Heap, p: int, adj: int)
    requires Fits(h, p, adj)
    ensures p in h.blocks && 16 <= adj <= h.blocks[p].size
  {
  }

  lemma SplitTiled(h: Heap, p: int, adj: int)
    requires Tiled(h) && Fits(h, p, adj) && Splits(h, p, adj)
    ensures p + adj !in h.blocks
    ensures Tiled(Split(h, p, adj))
  {
    var h' := Split(h, p, adj);
    var r := p + adj;
    assert Placed(h, p);
    AlignedSum(p, adj);
    AlignedSum(h.blocks[p].size, adj);
    SplitPoint(h, p, adj);
    forall q | q in h'.blocks
      ensures Placed(h', q)
    {
      if q != r {
        assert Placed(h, q);
      }
    }
    forall q | q in h'.blocks
      ensures Adjoins(h', q)
    {
      assert Adjoins(h, p);
      if q != r {
        assert Adjoins(h, q);
      }
    }
    forall a, b | a in h'.blocks && b in h'.blocks && a < b
      ensures End(h', a) <= b
    {
      SplitOrder(h, p, adj, a, b);
    }
  }

  lemma SplitPoint(h: Heap, p: int, adj: int)
    requires Tiled(h) && Fits(h, p, adj) && Splits(h, p, adj)
    ensures p + adj !in h.blocks
  {
  }

  lemma SplitOrder(h: Heap, p: int, adj: int, a: int, b: int)
    requires Tiled(h) && Fits(h, p, adj) && Splits(h, p, adj)
    requires a in Split(h, p, adj).blocks && b in Split(h, p, adj).blocks && a < b
    ensures End(Split(h, p, adj), a) <= b
  {
  }

  lemma SplitBits(h: Heap, p: int, adj: int)
    requires Tiled(h) && BitsSound(h) && Fits(h, p, adj) && Splits(h, p, adj)
    ensures BitsSound(Split(h, p, adj))
  {
    var h' := Split(h, p, adj);
    hide Tiled, Fits, Splits, FreeBefore;
    SplitPoint(h, p, adj);
    FitsLeast(h, p, adj);
    forall t | FreeBefore(h, t)
      ensures FreeBefore(h', t)
    {
      SplitBefore(h, p, adj, t);
    }
    forall t | t in h'.blocks
      ensures BitSound(h', t)
    {
      if t != p + adj {
        assert BitSound(h, t);
      }
    }
  }

  lemma SplitBefore(h: Heap, p: int, adj: int, t: int)
    requires p in h.blocks && p + adj !in h.blocks && adj > 0 && FreeBefore(h, t)
    ensures FreeBefore(Split(h, p, adj), t)
  {
    var q := Predecessor(h, t);
    var h', q' := Split(h, p, adj), if q == p then p + adj else q;
    assert IsFree(h', q') && End(h', q') == t;
  }

  lemma SplitIndexed(h: Heap, p: int, adj: int)
    requires Indexed(h, {p}) && p in h.blocks && p + adj !in h.blocks && adj != 0
    ensures Indexed(Split(h, p, adj), {p + adj})
  {
    var h' := Split(h, p, adj);
    forall q
      ensures IsFree(h', q) <==> q == p + adj || (IsFree(h, q) && q != p)
      ensures IsFree(h', q) && q != p + adj ==> h'.blocks[q] == h.blocks[q]
    {
    }
    forall i, q | 0 <= i < FREELIST_COUNT && q in h'.lists[i]
      ensures IsFree(h', q) && q != p + adj && ListIndex(h'.blocks[q].size) == i
    {
      Listed(h, {p}, i, q);
    }
    forall q | IsFree(h', q) && q != p + adj
      ensures h'.blocks[q].size >= 0 && q in h'.lists[ListIndex(h'.blocks[q].size)]
    {
      assert IsFree(h, q) && q !in {p};
    }
  }

  lemma SplitSound(h: Heap, p: int, adj: int)
    requires Sound(h, {p}) && Fits(h, p, adj) && Splits(h, p, adj)
    ensures Sound(Split(h, p, adj), {p + adj})
  {
    SplitTiled(h, p, adj);
    SplitBits(h, p, adj);
    SplitIndexed(h, p, adj);
  }

  lemma TakeWholeTiled(h: Heap, p: int)
    requires Tiled(h) && p in h.blocks
    ensures Tiled(TakeWhole(h, p))
  {
    var h' := TakeWhole(h, p);
    assert h'.blocks.Keys == h.blocks.Keys;
    forall q | q in h'.blocks
      ensures q in h.blocks && h'.blocks[q].size == h.blocks[q].size
    {
    }
    forall q | q in h'.blocks
      ensures Placed(h', q)
    {
      assert Placed(h, q);
    }
    forall q | q in h'.blocks
      ensures Adjoins(h', q)
    {
      assert Adjoins(h, q);
    }
  }

  lemma BreakIsNoBlock(h: Heap)
    requires Tiled(h)
    ensures h.hi !in h.blocks
  {
  }

  lemma TakeWholeBits(h: Heap, p: int)
    requires Tiled(h) && BitsSound(h) && p in h.blocks
    ensures BitsSound(TakeWhole(h, p))
  {
    var h' := TakeWhole(h, p);
    assert Placed(h, p);
    assert Adjoins(h, p);
    BreakIsNoBlock(h);
    assert forall t :: t in h.blocks ==> BitSound(h, t);
    forall t | t != End(h, p) && FreeBefore(h, t)
      ensures FreeBefore(h', t)
    {
      var q := Predecessor(h, t);
      assert IsFree(h', q) && End(h', q) == t;
    }
  }

  lemma TakeWholeIndexed(h: Heap, p: int)
    requires Indexed(h, {p}) && p in h.blocks && End(h, p) != p
    ensures Indexed(TakeWhole(h, p), {})
  {
    var h' := TakeWhole(h, p);
    forall q
      ensures IsFree(h', q) <==> IsFree(h, q) && q != p
      ensures IsFree(h', q) ==> h'.blocks[q].size == h.blocks[q].size
    {
    }
  }

  lemma TakeWholeSound(h: Heap, p: int)
    requires Sound(h, {p}) && p in h.blocks
    ensures Sound(TakeWhole(h, p), {})
  {
    assert Placed(h, p);
    TakeWholeTiled(h, p);
    TakeWholeBits(h, p);
    TakeWholeIndexed(h, p);
  }

  /** The block off its list and split in two, the rest not yet listed. */
  ghost function Carved(h: Heap, p: int, adj: int): Heap
    requires IsFree(h, p) && h.blocks[p].size >= 0 && |h.lists| == FREELIST_COUNT
  {
    Split(Unlist(h, p), p, adj)
  }

  /** allocate: take a listed free block off its list; keep the front and give the rest back
      when the rest is large enough, else take it whole. */
  ghost function Allocated(h: Heap, p: int, adj: int): Heap
    requires Sound(h, {}) && IsFree(h, p) && Fits(h, p, adj)
  {
    hide Tiled, BitsSound, Indexed;
    SeventeenLists(h, {});
    AllocateSteps(h, p, adj);
    if Splits(h, p, adj) then Coalesced(Carved(h, p, adj), p + adj)
    else TakeWhole(Unlist(h, p), p)
  }

  lemma AllocateSteps(h: Heap, p: int, adj: int)
    requires Sound(h, {}) && IsFree(h, p) && Fits(h, p, adj)
    ensures Sound(Unlist(h, p), {p})
    ensures Splits(h, p, adj) ==> Sound(Carved(h, p, adj), {p + adj}) && p + adj in Carved(h, p, adj).blocks
    ensures !Splits(h, p, adj) ==> Sound(TakeWhole(Unlist(h, p), p), {})
  {
    UnlistSound(h, {}, p);
    assert {} + {p} == {p};
    if Splits(h, p, adj) {
      SplitSound(Unlist(h, p), p, adj);
    } else {
      TakeWholeSound(Unlist(h, p), p);
    }
  }

  lemma AllocatedSound(h: Heap, p: int, adj: int)
    requires Sound(h, {}) && IsFree(h, p) && Fits(h, p, adj)
    ensures Sound(Allocated(h, p, adj), {})
  {
    hide Tiled, BitsSound, Indexed, Fits, Coalesced, Carved, TakeWhole, Unlist;
    SeventeenLists(h, {});
    BlockSize(h, p);
    AllocateSteps(h, p, adj);
    if Splits(h, p, adj) {
      CoalescedSound(Carved(h, p, adj), p + adj);
    }
  }

  /** The allocated blocks of two heaps are the same, except perhaps `p`. */
  ghost predicate SameAllocBut(h: Heap, h': Heap, p: int) {
    && (forall q :: q != p ==> (IsAlloc(h', q) <==> IsAlloc(h, q)))
    && (forall q :: q != p && IsAlloc(h', q) ==> h'.blocks[q].size == h.blocks[q].size)
  }

  lemma CoalescedAlloc(h: Heap, p: int)
    requires Sound(h, {p}) && p in h.blocks
    ensures var h' := Coalesced(h, p);
      && (forall q :: IsAlloc(h', q) <==> IsAlloc(h, q))
      && (forall q :: IsAlloc(h', q) ==> h'.blocks[q] == h.blocks[q])
      && h' == h.(blocks := h'.blocks, lists := h'.lists)
  {
    CoalescedBlocks(h, p);
    var h' := Coalesced(h, p);
    var r := MergePoint(h, p);
    forall q | IsAlloc(h, q)
      ensures IsAlloc(h', q)
    {
      CoalescedSpansFree(h, p, q);
    }
  }

  /** No allocated block lies in the span that coalesce merges. */
  lemma CoalescedSpansFree(h: Heap, p: int, q: int)
    requires Sound(h, {p}) && p in h.blocks && IsAlloc(h, q)
    ensures q < MergePoint(h, p) || (if NextFree(h, p) then End(h, End(h, p)) else End(h, p)) <= q
  {
  }

  lemma CoalescedBits(h: Heap, p: int)
    requires Sound(h, {p}) && p in h.blocks
    requires forall q :: q in h.blocks && q != p ==> h.blocks[q].prev
    ensures AllBitsSet(Coalesced(h, p))
  {
    CoalescedBlocks(h, p);
    var r := MergePoint(h, p);
    assert Placed(h, p) && Placed(h, r);
  }

  /** Everything but the named blocks, the lists and the epilogue bit is unchanged. */
  ghost predicate OnlyBlocks(h: Heap, h': Heap) {
    h' == h.(blocks := h'.blocks, lists := h'.lists, epi := h'.epi)
  }

  lemma CarvedBlocks(h: Heap, p: int, adj: int)
    requires Tiled(h) && |h.lists| == FREELIST_COUNT && IsFree(h, p) && Fits(h, p, adj) && Splits(h, p, adj)
    ensures var h' := Carved(h, p, adj);
      && IsAlloc(h', p) && h'.blocks[p].size == adj && SameAllocBut(h, h', p) && OnlyBlocks(h, h')
      && (AllBitsSet(h) ==> AllBitsSet(h'))
  {
  }

  lemma TakenBlocks(h: Heap, p: int)
    requires |h.lists| == FREELIST_COUNT && IsFree(h, p) && h.blocks[p].size > 0
    ensures var h' := TakeWhole(Unlist(h, p), p);
      && IsAlloc(h', p) && h'.blocks[p].size == h.blocks[p].size && SameAllocBut(h, h', p) && OnlyBlocks(h, h')
      && (AllBitsSet(h) ==> AllBitsSet(h'))
  {
  }

  lemma CoalescedCarved(h: Heap, g: Heap, p: int, r: int)
    requires Sound(g, {r}) && r in g.blocks
    requires IsAlloc(g, p) && SameAllocBut(h, g, p) && OnlyBlocks(h, g)
    ensures var h' := Coalesced(g, r);
      && IsAlloc(h', p) && h'.blocks[p].size == g.blocks[p].size && SameAllocBut(h, h', p) && OnlyBlocks(h, h')
      && (AllBitsSet(g) ==> AllBitsSet(h'))
  {
    CoalescedAlloc(g, r);
    if AllBitsSet(g) {
      CoalescedBits(g, r);
    }
  }

  /** The blocks after allocate: `p` is allocated with the adjusted size or eight bytes more, no
      other allocated block changes, and set PREVALLOC bits stay set. */
  lemma AllocatedBlocks(h: Heap, p: int, adj: int)
    requires Sound(h, {}) && IsFree(h, p) && Fits(h, p, adj)
    ensures IsAlloc(Allocated(h, p, adj), p)
    ensures var s := Allocated(h, p, adj).blocks[p].size; s == adj || s == adj + 8
    ensures SameAllocBut(h, Allocated(h, p, adj), p) && OnlyBlocks(h, Allocated(h, p, adj))
    ensures AllBitsSet(h) ==> AllBitsSet(Allocated(h, p, adj))
  {
    hide Tiled, BitsSound, Indexed, SameAllocBut, OnlyBlocks, AllBitsSet, Coalesced;
    SeventeenLists(h, {});
    if Splits(h, p, adj) {
      AllocateSteps(h, p, adj);
      CarvedBlocks(h, p, adj);
      CoalescedCarved(h, Carved(h, p, adj), p, p + adj);
    } else {
      SizeStep(h, p, adj);
      TakenBlocks(h, p);
    }
  }

  /** A rest too small to split off is 0 or 8 bytes. */
  lemma SizeStep(h: Heap, p: int, adj: int)
    requires Tiled(h) && Fits(h, p, adj) && !Splits(h, p, adj)
    ensures h.blocks[p].size == adj || h.blocks[p].size == adj + 8
  {
  }

  // ---- extend_heap -----------------------------------------------------------------------

  /** The break moves up by `n`; the new space is one free block whose PREVALLOC bit comes from
      the old epilogue. */
  function Grown(h: Heap, n: int): Heap {
    h.(hi := h.hi + n, epi := false, blocks := h.blocks[h.hi := Block(n, false, h.epi)])
  }

  predicate CanGrow(h: Heap, n: int) {
    n % 8 == 0 && 16 <= n && h.hi + n <= h.limit
  }

  lemma GrownOrder(h: Heap, n: int)
    requires Tiled(h)
    ensures Disjoint(Grown(h, n))
  {
  }

  lemma GrownTiled(h: Heap, n: int)
    requires Tiled(h) && CanGrow(h, n)
    ensures Tiled(Grown(h, n))
  {
    var h' := Grown(h, n);
    GrownOrder(h, n);
    AlignedSum(h.hi, n);
    forall q | q in h'.blocks
      ensures Placed(h', q) && Adjoins(h', q)
    {
      GrownBlock(h, n, q);
    }
    hide Placed, Adjoins;
  }

  lemma GrownBlock(h: Heap, n: int, q: int)
    requires Tiled(h) && CanGrow(h, n) && q in Grown(h, n).blocks
    ensures Placed(Grown(h, n), q) && Adjoins(Grown(h, n), q)
  {
    if q != h.hi {
      assert Placed(h, q) && Adjoins(h, q);
      hide Tiled;
    }
  }

  lemma GrownBits(h: Heap, n: int)
    requires Tiled(h) && BitsSound(h)
    ensures BitsSound(Grown(h, n))
  {
    var h' := Grown(h, n);
    BreakIsNoBlock(h);
    assert IsFree(h', h.hi) && End(h', h.hi) == h'.hi;
    assert forall t :: t in h.blocks ==> BitSound(h, t);
    forall t | FreeBefore(h, t)
      ensures FreeBefore(h', t)
    {
      var q := Predecessor(h, t);
      assert IsFree(h', q) && End(h', q) == t;
    }
  }

  lemma GrownSound(h: Heap, n: int)
    requires Sound(h, {}) && CanGrow(h, n)
    ensures Sound(Grown(h, n), {h.hi})
  {
    GrownTiled(h, n);
    GrownBits(h, n);
    BreakIsNoBlock(h);
    GrownIndexed(h, n);
  }

  lemma GrownIndexed(h: Heap, n: int)
    requires Indexed(h, {}) && h.hi !in h.blocks
    ensures Indexed(Grown(h, n), {h.hi})
  {
    var h' := Grown(h, n);
    forall q
      ensures IsFree(h', q) <==> IsFree(h, q) || q == h.hi
      ensures IsFree(h, q) ==> h'.blocks[q] == h.blocks[q]
    {
    }
    forall i, q | 0 <= i < FREELIST_COUNT && q in h'.lists[i]
      ensures IsFree(h', q) && q != h.hi && h'.blocks[q].size >= 0 && ListIndex(h'.blocks[q].size) == i
    {
      Listed(h, {}, i, q);
    }
    forall q | IsFree(h', q) && q != h.hi
      ensures h'.blocks[q].size >= 0 && q in h'.lists[ListIndex(h'.blocks[q].size)]
    {
      assert IsFree(h, q) && q !in {};
    }
  }

  ghost function Extended(h: Heap, n: int): Heap
    requires Sound(h, {}) && CanGrow(h, n)
  {
    GrownSound(h, n);
    Coalesced(Grown(h, n), h.hi)
  }

  /** Where the free block made by extend_heap starts. */
  ghost function ExtensionPoint(h: Heap, n: int): int
    requires Sound(h, {}) && CanGrow(h, n)
  {
    GrownSound(h, n);
    MergePoint(Grown(h, n), h.hi)
  }

  lemma ExtendedSound(h: Heap, n: int)
    requires Sound(h, {}) && CanGrow(h, n)
    ensures Sound(Extended(h, n), {})
    ensures IsFree(Extended(h, n), ExtensionPoint(h, n))
    ensures Extended(h, n).blocks[ExtensionPoint(h, n)].size >= n
  {
    GrownTiled(h, n);
    GrownSound(h, n);
    CoalescedSound(Grown(h, n), h.hi);
    CoalescedBlocks(Grown(h, n), h.hi);
    assert Placed(Grown(h, n), ExtensionPoint(h, n));
  }

  lemma ExtendedBlocks(h: Heap, n: int)
    requires Sound(h, {}) && CanGrow(h, n)
    ensures var h' := Extended(h, n);
      && (forall q :: IsAlloc(h', q) <==> IsAlloc(h, q))
      && (forall q :: IsAlloc(h', q) ==> h'.blocks[q] == h.blocks[q])
      && (AllBitsSet(h) ==> AllBitsSet(h'))
      && h' == h.(hi := h.hi + n, epi := false, blocks := h'.blocks, lists := h'.lists)
  {
    var g := Grown(h, n);
    BreakIsNoBlock(h);
    GrownSound(h, n);
    CoalescedAlloc(g, h.hi);
    if AllBitsSet(h) {
      CoalescedBits(g, h.hi);
    }
  }

  lemma ExtensionPositive(h: Heap, n: int)
    requires Sound(h, {}) && CanGrow(h, n)
    ensures ExtensionPoint(h, n) > 0
  {
  }

  lemma PageFits(h: Heap, adj: int)
    requires Tiled(h) && adj % 8 == 0 && 16 <= adj < WORD_SPAN
    ensures var n := Max(adj, h.page); n % 8 == 0 && 16 <= n < WORD_SPAN && adj <= n
  {
  }

  // ---- find_fit --------------------------------------------------------------------------

  /** The head of list `i` is a block of at least `adj` bytes. */
  predicate HeadFits(h: Heap, i: int, adj: int)
    requires 0 <= i < |h.lists|
  {
    h.lists[i] != [] && h.lists[i][0] in h.blocks && h.blocks[h.lists[i][0]].size >= adj
  }

  /** The head of the first list from `i` on whose head fits; 0 when there is none. */
  function FindFit(h: Heap, adj: int, i: int): int
    requires |h.lists| == FREELIST_COUNT && 0 <= i <= FREELIST_COUNT
    decreases FREELIST_COUNT - i
  {
    if i == FREELIST_COUNT then 0
    else if HeadFits(h, i, adj) then h.lists[i][0]
    else FindFit(h, adj, i + 1)
  }

  /** A non-null answer is the head of the lowest list whose head fits; null means no head fits. */
  lemma {:induction false} FindFitLowest(h: Heap, adj: int, i: int)
    requires Sound(h, {}) && 0 <= i <= FREELIST_COUNT
    ensures var p := FindFit(h, adj, i);
      if p != 0 then
        && IsFree(h, p) && h.blocks[p].size >= adj
        && var j := ListIndex(h.blocks[p].size);
           i <= j && HeadFits(h, j, adj) && h.lists[j][0] == p && forall k :: i <= k < j ==> !HeadFits(h, k, adj)
      else
        forall k :: i <= k < FREELIST_COUNT ==> !HeadFits(h, k, adj)
    decreases FREELIST_COUNT - i
  {
    if i < FREELIST_COUNT {
      if HeadFits(h, i, adj) {
        HeadIsBlock(h, i);
      } else {
        FindFitLowest(h, adj, i + 1);
      }
    }
  }

  /** When find_fit answers null, every list above the class of the request is empty, and the
      head of its own list, if there is one, is too small. */
  lemma FindFitNull(h: Heap, adj: nat)
    requires Sound(h, {}) && FindFit(h, adj, ListIndex(adj)) == 0
    ensures forall k :: ListIndex(adj) < k < FREELIST_COUNT ==> h.lists[k] == []
    ensures var l := h.lists[ListIndex(adj)]; l != [] ==> l[0] in h.blocks && h.blocks[l[0]].size < adj
  {
    FindFitLowest(h, adj, ListIndex(adj));
    forall k | ListIndex(adj) <= k < FREELIST_COUNT && h.lists[k] != []
      ensures k == ListIndex(adj) && h.lists[k][0] in h.blocks
    {
      HeadIsBlock(h, k);
      ListIndexMonotone(adj, h.blocks[h.lists[k][0]].size);
      assert !HeadFits(h, k, adj);
    }
  }

  /** Some free block is large enough. */
  ghost predicate SomeFits(h: Heap, adj: int) {
    exists p :: IsFree(h, p) && h.blocks[p].size >= adj
  }

  /** find_fit looks at list heads only.  When it answers null, a block that fits exists exactly when a
      later node of the class list fits. */
  lemma FindFitMissesIff(h: Heap, adj: nat)
    requires Sound(h, {}) && FindFit(h, adj, ListIndex(adj)) == 0
    ensures SomeFits(h, adj) <==>
      var l := h.lists[ListIndex(adj)]; exists k :: 1 <= k < |l| && l[k] in h.blocks && h.blocks[l[k]].size >= adj
  {
    var l := h.lists[ListIndex(adj)];
    FindFitNull(h, adj);
    if p :| IsFree(h, p) && h.blocks[p].size >= adj {
      var i := ListIndex(h.blocks[p].size);
      assert p in h.lists[i];
      ListIndexMonotone(adj, h.blocks[p].size);
      assert i == ListIndex(adj);
      var k :| 0 <= k < |l| && l[k] == p;
      assert k != 0;
    }
    if k :| 1 <= k < |l| && l[k] in h.blocks && h.blocks[l[k]].size >= adj {
      Listed(h, {}, ListIndex(adj), l[k]);
    }
  }

  lemma HeadIsBlock(h: Heap, i: int)
    requires Indexed(h, {}) && 0 <= i < FREELIST_COUNT && h.lists[i] != []
    ensures var p := h.lists[i][0]; IsFree(h, p) && h.blocks[p].size >= 0 && ListIndex(h.blocks[p].size) == i
  {
  }

  // ---- mm_malloc, mm_free, mm_realloc -------------------------------------------------------

  /** The heap and the pointer (0 for NULL) after a request.  The live map records the request. */
  ghost function Malloc(h: Heap, size: int): (Heap, int)
    requires Quiescent(h) && 0 <= size <= MAX_REQUEST
  {
    if size == 0 then (h, 0)
    else
      var adj := AdjustByteSize(size);
      AdjustIsLeast(size);
      var p := FindFit(h, adj, ListIndex(adj));
      FindFitLowest(h, adj, ListIndex(adj));
      var n := Max(adj, h.page);
      if p != 0 then
        var h' := Allocated(h, p, adj);
        (h'.(req := h'.req[p := size]), p)
      else if h.hi + n > h.limit then (h, 0)
      else
        ExtendedSound(h, n);
        var r := ExtensionPoint(h, n);
        var h' := Allocated(Extended(h, n), r, adj);
        (h'.(req := h'.req[r := size]), r)
  }

  /** free_block: the block is marked free, and it is no longer live. */
  function Released(h: Heap, p: int): Heap
    requires p in h.blocks
  {
    h.(blocks := h.blocks[p := h.blocks[p].(alloc := false)], req := h.req - {p})
  }

  lemma ReleasedTiled(h: Heap, p: int)
    requires Tiled(h) && p in h.blocks
    ensures Tiled(Released(h, p))
  {
    var h' := Released(h, p);
    assert h'.blocks.Keys == h.blocks.Keys;
    forall q | q in h'.blocks
      ensures q in h.blocks && h'.blocks[q].size == h.blocks[q].size
    {
    }
    forall q | q in h'.blocks
      ensures Placed(h', q)
    {
      assert Placed(h, q);
    }
    forall q | q in h'.blocks
      ensures Adjoins(h', q)
    {
      assert Adjoins(h, q);
    }
  }

  lemma ReleasedBits(h: Heap, p: int)
    requires BitsSound(h) && IsAlloc(h, p)
    ensures BitsSound(Released(h, p))
  {
    var h' := Released(h, p);
    assert forall t :: t in h.blocks ==> BitSound(h, t);
    forall t | FreeBefore(h, t)
      ensures FreeBefore(h', t)
    {
      var q := Predecessor(h, t);
      assert IsFree(h', q) && End(h', q) == t;
    }
  }

  lemma ReleasedSound(h: Heap, p: int)
    requires Sound(h, {}) && IsAlloc(h, p)
    ensures Sound(Released(h, p), {p})
  {
    var h' := Released(h, p);
    ReleasedTiled(h, p);
    ReleasedBits(h, p);
    forall q
      ensures IsFree(h', q) <==> IsFree(h, q) || q == p
    {
    }
  }

  ghost function Freed(h: Heap, p: int): Heap
    requires Sound(h, {}) && IsAlloc(h, p)
  {
    ReleasedSound(h, p);
    Coalesced(Released(h, p), p)
  }

  ghost function Realloc(h: Heap, p: int, size: int): (Heap, int)
    requires Quiescent(h) && p in h.req && 0 <= size <= MAX_REQUEST
  {
    MallocKeeps(h, size);
    var (h', r) := Malloc(h, size);
    if r == 0 then (h, 0) else (Freed(h', p), r)
  }

  lemma AddLive(h: Heap, h': Heap, p: int, size: int)
    requires Live(h) && SameAllocBut(h, h', p) && IsAlloc(h', p) && h'.req == h.req
    requires Serves(h'.blocks[p], size)
    ensures Live(h'.(req := h'.req[p := size]))
  {
  }

  lemma ReqOnly(h: Heap, req: map<int, int>)
    requires Sound(h, {}) && AllBitsSet(h)
    ensures Sound(h.(req := req), {}) && AllBitsSet(h.(req := req))
  {
    BlocksOnly(h, h.(req := req));
  }

  lemma AllocateKeeps(h: Heap, p: int, adj: int, size: int)
    requires Sound(h, {}) && AllBitsSet(h) && Live(h) && IsFree(h, p) && Fits(h, p, adj)
    requires 1 <= size <= MAX_REQUEST && adj == AdjustByteSize(size)
    ensures var h' := Allocated(h, p, adj); Quiescent(h'.(req := h'.req[p := size]))
  {
    AllocatedSound(h, p, adj);
    AllocatedBlocks(h, p, adj);
    var h' := Allocated(h, p, adj);
    AdjustIsLeast(size);
    AddLive(h, h', p, size);
    ReqOnly(h', h'.req[p := size]);
  }

  /** mm_malloc keeps the invariant; it adds exactly the returned pointer to the live map. */
  lemma MallocKeeps(h: Heap, size: int)
    requires Quiescent(h) && 0 <= size <= MAX_REQUEST
    ensures var (h', r) := Malloc(h, size);
      && Quiescent(h')
      && (r == 0 ==> h' == h)
      && (r != 0 ==> size >= 1 && r !in h.req && h'.req == h.req[r := size])
      && h'.lo == h.lo && h'.limit == h.limit && h'.page == h.page
  {
    if size > 0 {
      var adj := AdjustByteSize(size);
      AdjustIsLeast(size);
      var p := FindFit(h, adj, ListIndex(adj));
      FindFitLowest(h, adj, ListIndex(adj));
      var n := Max(adj, h.page);
      if p != 0 {
        AllocateKeeps(h, p, adj, size);
        AllocatedBlocks(h, p, adj);
      } else if h.hi + n <= h.limit {
        MallocGrows(h, size);
      }
    }
  }

  lemma MallocGrows(h: Heap, size: int)
    requires Quiescent(h) && 1 <= size <= MAX_REQUEST
    requires CanGrow(h, Max(AdjustByteSize(size), h.page)) && Fits(h, h.lo, 16)
    ensures var adj := AdjustByteSize(size); var n := Max(adj, h.page);
      var r := ExtensionPoint(h, n); var g := Extended(h, n);
      && Sound(g, {}) && IsFree(g, r) && Fits(g, r, adj) && r !in h.req && g.req == h.req && r != 0
      && Allocated(g, r, adj).req == h.req
      && Quiescent(Allocated(g, r, adj).(req := h.req[r := size]))
      && Allocated(g, r, adj).lo == h.lo && Allocated(g, r, adj).limit == h.limit
      && Allocated(g, r, adj).page == h.page && Allocated(g, r, adj).hi == h.hi + n
  {
    var adj := AdjustByteSize(size);
    AdjustIsLeast(size);
    var n := Max(adj, h.page);
    ExtendedSound(h, n);
    ExtendedBlocks(h, n);
    var r, g := ExtensionPoint(h, n), Extended(h, n);
    assert Live(g);
    AllocateKeeps(g, r, adj, size);
    AllocatedBlocks(g, r, adj);
  }

  /** mm_free keeps the invariant and removes exactly the freed pointer from the live map. */
  lemma FreedKeeps(h: Heap, p: int)
    requires Quiescent(h) && p in h.req
    ensures Quiescent(Freed(h, p))
    ensures Freed(h, p).req == h.req - {p}
    ensures Freed(h, p) == h.(blocks := Freed(h, p).blocks, lists := Freed(h, p).lists, req := h.req - {p})
  {
    var g := Released(h, p);
    ReleasedSound(h, p);
    CoalescedSound(g, p);
    CoalescedAlloc(g, p);
    CoalescedBits(g, p);
    var h' := Freed(h, p);
    forall q
      ensures q in h'.req <==> IsAlloc(h', q)
      ensures q in h'.req ==> Serves(h'.blocks[q], h'.req[q])
    {
    }
  }

  lemma ReallocKeeps(h: Heap, p: int, size: int)
    requires Quiescent(h) && p in h.req && 0 <= size <= MAX_REQUEST
    ensures var (h', r) := Realloc(h, p, size);
      && Quiescent(h')
      && (r == 0 ==> h' == h)
      && (r != 0 ==> size >= 1 && r !in h.req && h'.req == h.req[r := size] - {p})
      && h'.lo == h.lo && h'.limit == h.limit && h'.page == h.page
  {
    MallocKeeps(h, size);
    var (h', r) := Malloc(h, size);
    if r != 0 {
      FreedKeeps(h', p);
    }
  }

  // ---- mm_init -----------------------------------------------------------------------------

  /** One free block of `page` bytes, not yet listed, between prologue and epilogue. */
  function FreshHeap(lo: int, limit: int, page: int): Heap {
    Heap(lo, lo + page, limit, page, false, map[lo := Block(page, false, true)],
         seq(FREELIST_COUNT, _ => []), map[])
  }

  predicate CanInit(lo: int, limit: int, page: int) {
    && lo % 8 == 0 && limit % 8 == 0 && page % 8 == 0 && 24 <= lo && 16 <= page
    && lo + page <= limit < WORD_SPAN
  }

  function InitHeap(lo: int, limit: int, page: int): Heap
    requires 0 <= page
  {
    Enlist(FreshHeap(lo, limit, page), lo)
  }

  lemma FreshSound(lo: int, limit: int, page: int)
    requires CanInit(lo, limit, page)
    ensures Sound(FreshHeap(lo, limit, page), {lo})
  {
  }

  /** The heap that mm_init leaves satisfies the invariant. */
  lemma InitQuiescent(lo: int, limit: int, page: int)
    requires CanInit(lo, limit, page)
    ensures Quiescent(InitHeap(lo, limit, page))
  {
    FreshSound(lo, limit, page);
    EnlistSound(FreshHeap(lo, limit, page), {lo}, lo);
    assert {lo} - {lo} == {};
  }
}
