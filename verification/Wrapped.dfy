/** Requests above 2^32-12 bytes, for which the size computation wraps around.  The last three sizes are
    served like a request of twelve bytes.  The others get an adjusted size of zero: allocate then marks
    a block of no bytes and at once gives the whole block back, but the footer of the block of no bytes
    goes to the word before the header, which belongs to the block before. */
module Wrapped {
  import opened Words
  import opened SizeClass
  import opened HeapSpec
  import opened HeapOps
  import opened Layout
  import opened Steps
  import opened Runs
  import opened Usage
  import opened Effects

  /** The sizes that wrap to zero. */
  predicate WrapsToZero(size: int) {
    MAX_REQUEST < size < WORD_SPAN - 3
  }

  /** The request that the block of an adjusted size serves. */
  function Served(size: Word): int {
    if size <= MAX_REQUEST then size else 12
  }

  /** Outside the sizes that wrap to zero, mm_malloc computes the block of the request it serves. */
  lemma ServedAdjusts(size: Word)
    requires size >= 1
    ensures WrapsToZero(size) <==> AdjustByteSize(size) == 0
    ensures !WrapsToZero(size) ==> 1 <= Served(size) <= MAX_REQUEST
    ensures !WrapsToZero(size) ==> AdjustByteSize(size) == AdjustByteSize(Served(size))
    ensures Served(size) == size <==> size <= MAX_REQUEST
  {
    AdjustServesIff(size);
    if size <= MAX_REQUEST {
      AdjustIsLeast(size);
    } else {
      assert AdjustByteSize(12) == 16;
    }
  }

  /** What the footer of a block of no bytes writes: no size, and both bits. */
  const DENT: Word := THISALLOC + PREVALLOC

  /** Block `p` off its list and given back. */
  ghost function Relisted(h: Heap, p: int): Heap
    requires Sound(h, {}) && IsFree(h, p) && |h.lists| == FREELIST_COUNT && h.blocks[p].size >= 0
  {
    UnlistSound(h, {}, p);
    assert {} + {p} == {p};
    Coalesced(Unlist(h, p), p)
  }

  lemma RelistedSound(h: Heap, p: int)
    requires Sound(h, {}) && AllBitsSet(h) && IsFree(h, p) && |h.lists| == FREELIST_COUNT && h.blocks[p].size >= 0
    ensures var c := Relisted(h, p);
      && Sound(c, {}) && AllBitsSet(c) && |c.lists| == FREELIST_COUNT
      && IsFree(c, p) && c.blocks[p].size >= h.blocks[p].size
      && (forall q :: IsAlloc(c, q) <==> IsAlloc(h, q)) && (forall q :: IsAlloc(c, q) ==> c.blocks[q] == h.blocks[q])
      && c == h.(blocks := c.blocks, lists := c.lists)
  {
    hide Tiled, BitsSound, Indexed, Coalesced;
    var g := Unlist(h, p);
    UnlistSound(h, {}, p);
    assert {} + {p} == {p};
    CoalescedSound(g, p);
    CoalescedAlloc(g, p);
    CoalescedBits(g, p);
    CoalescedBlocks(g, p);
    SeventeenLists(Relisted(h, p), {});
    BlockSize(g, p);
    if NextFree(g, p) {
      BlockSize(g, End(g, p));
    }
  }

  /** The list on which the block given back is the last node. */
  function ClassOf(h: Heap, p: int): int
    requires p in h.blocks && h.blocks[p].size >= 0
  {
    ListIndex(h.blocks[p].size)
  }

  /** The block given back is the last node of its list. */
  lemma RelistedLast(h: Heap, p: int)
    requires Sound(h, {}) && AllBitsSet(h) && IsFree(h, p) && |h.lists| == FREELIST_COUNT && h.blocks[p].size >= 0
    ensures LastOfList(Relisted(h, p), p)
  {
    hide Tiled, BitsSound, MergeNext;
    RelistedSound(h, p);
    UnlistSound(h, {}, p);
    assert {} + {p} == {p};
    CoalesceSteps(Unlist(h, p), p);
  }

  /** The second remove_from_list, on the list `i` of the old size, takes the block off its list, unless
      the block is now alone on another list. */
  predicate StaysListed(h: Heap, p: int, i: int)
    requires p in h.blocks && h.blocks[p].size >= 0 && |h.lists| == FREELIST_COUNT
  {
    ClassOf(h, p) != i && h.lists[ClassOf(h, p)] == [p]
  }

  /** mm_malloc when the adjusted size is zero: the heap and the pointer. */
  ghost function MallocNone(h: Heap): (Heap, int)
    requires Quiescent(h)
  {
    SeventeenLists(h, {});
    var p := FindFit(h, 0, 0);
    FindFitLowest(h, 0, 0);
    if p != 0 then
      RelistedSound(h, p);
      var c := Relisted(h, p);
      (if StaysListed(c, p, ClassOf(h, p)) then c else Unlist(c, p), p)
    else if h.hi + h.page > h.limit then (h, 0)
    else
      ExtendedSound(h, h.page);
      SeventeenLists(Extended(h, h.page), {});
      (Relisted(Extended(h, h.page), ExtensionPoint(h, h.page)), ExtensionPoint(h, h.page))
  }

  ghost predicate NoneFree(h: Heap) {
    forall p :: !IsFree(h, p)
  }

  /** The pointer is NULL exactly when no block is free and no page fits.  Otherwise it is that of a block
      which stays free and which at most is missing from the lists; no live request is added. */
  lemma MallocNoneFrees(h: Heap)
    requires Quiescent(h)
    ensures var (h', p) := MallocNone(h);
      && (p == 0 <==> NoneFree(h) && h.hi + h.page > h.limit)
      && (p == 0 ==> h' == h)
      && (p != 0 ==> IsFree(h', p) && p !in h'.req && (Sound(h', {}) || Sound(h', {p})))
      && AllBitsSet(h') && Live(h') && h'.req == h.req
      && (forall q :: IsAlloc(h', q) <==> IsAlloc(h, q)) && (forall q :: IsAlloc(h', q) ==> h'.blocks[q] == h.blocks[q])
  {
    hide Tiled, BitsSound, Indexed, AllBitsSet, Relisted, Extended;
    SeventeenLists(h, {});
    var p := FindFit(h, 0, 0);
    FindFitLowest(h, 0, 0);
    NoneFits(h);
    if p != 0 {
      BlockSize(h, p);
      RelistedSound(h, p);
      var c := Relisted(h, p);
      UnlistSound(c, {}, p);
      UnlistBits(c, p);
      assert {} + {p} == {p};
    } else if h.hi + h.page <= h.limit {
      PageGrows(h);
      ExtendedSound(h, h.page);
      ExtendedBlocks(h, h.page);
      ExtensionPositive(h, h.page);
      var g, r := Extended(h, h.page), ExtensionPoint(h, h.page);
      SeventeenLists(g, {});
      RelistedSound(g, r);
    }
  }

  lemma UnlistBits(h: Heap, p: int)
    requires AllBitsSet(h) && p in h.blocks && h.blocks[p].size >= 0 && |h.lists| == FREELIST_COUNT
    ensures AllBitsSet(Unlist(h, p))
  {
  }

  lemma PageGrows(h: Heap)
    requires Tiled(h) && h.hi + h.page <= h.limit
    ensures CanGrow(h, h.page)
  {
  }

  /** find_fit for zero bytes finds a block whenever there is a free one. */
  lemma NoneFits(h: Heap)
    requires Sound(h, {}) && |h.lists| == FREELIST_COUNT
    ensures FindFit(h, 0, 0) == 0 <==> NoneFree(h)
  {
    FindFitLowest(h, 0, 0);
    if p :| IsFree(h, p) {
      var i := ListIndex(h.blocks[p].size);
      HeadIsBlock(h, i);
      assert HeadFits(h, i, 0);
    }
  }

  /** The block given back, together with the block behind it when that is free, is one free block again,
      last on its list. */
  lemma RelistedExactly(h: Heap, p: int)
    requires Sound(h, {}) && AllBitsSet(h) && IsFree(h, p) && |h.lists| == FREELIST_COUNT && h.blocks[p].size >= 0
    ensures var c := Relisted(h, p);
      && c.blocks == (h.blocks - Behind(h, p))[p := Block(MergedEnd(h, p) - p, false, true)]
      && Relists(h, c, {p} + Behind(h, p), p)
      && c == h.(blocks := c.blocks, lists := c.lists)
  {
    hide Tiled, BitsSound, Indexed, Coalesced, Relists, Delists, Unlist, AllBitsSet, Behind, MergedEnd, MergePoint;
    UnlistSound(h, {}, p);
    assert {} + {p} == {p};
    UnlistIs(h, p);
    var g, x := Unlist(h, p), Behind(h, p);
    MergesHere(g, p);
    CoalescedExactly(g, p);
    assert x + ({p} - {p}) == x;
    RelistsAfter(h, g, Relisted(h, p), {p}, x, p);
    OneOut(h.blocks, x, p, Block(MergedEnd(h, p) - p, false, true));
  }

  lemma UnlistIs(h: Heap, p: int)
    requires Sound(h, {}) && AllBitsSet(h) && IsFree(h, p) && |h.lists| == FREELIST_COUNT && h.blocks[p].size >= 0
    ensures var g := Unlist(h, p);
      && g == h.(lists := g.lists) && g.blocks[p].prev && Delists(h, g, {p})
      && Behind(g, p) == Behind(h, p) && MergedEnd(g, p) == MergedEnd(h, p)
  {
    UnlistDelists(h, {}, p);
    hide Sound, Delists;
  }

  lemma OneOut(m: map<int, Block>, x: set<int>, p: int, b: Block)
    ensures (m - {p} - x)[p := b] == (m - x)[p := b]
  {
  }

  /** Taking the last node off again. */
  lemma LastOff(h: Heap, c: Heap, x: set<int>, p: int)
    requires Relists(h, c, x, p) && Indexed(c, {}) && IsFree(c, p)
    ensures Delists(h, Unlist(c, p), x)
  {
    var i := ListIndex(c.blocks[p].size);
    var l := c.lists[i];
    WithoutAt(l, |l| - 1);
    assert l[..|l| - 1] + l[|l|..] == Minus(h.lists[i], x);
  }

  /** mm_malloc when the adjusted size is zero, exactly: it hands out the head of the lowest list that is not
      empty.  The block, together with the block behind it when that is free, stays one free block, and is on
      no list, or alone on another one. */
  lemma MallocNoneFound(h: Heap, i: int)
    requires Quiescent(h) && |h.lists| == FREELIST_COUNT && LowestFit(h, 0, i)
    ensures var p := h.lists[i][0]; var h' := MallocNone(h).0;
      && MallocNone(h).1 == p && p in h.blocks
      && h'.blocks == (h.blocks - Behind(h, p))[p := Block(MergedEnd(h, p) - p, false, true)]
      && (if MovesAlone(h, p) then Relists(h, h', {p} + Behind(h, p), p) else Delists(h, h', {p} + Behind(h, p)))
      && h' == h.(blocks := h'.blocks, lists := h'.lists)
  {
    hide Tiled, BitsSound, Indexed, AllBitsSet, Live, Relisted, ListIndex, MovesAlone, Relists, Delists;
    hide Behind, MergedEnd;
    var p := h.lists[i][0];
    FitIsHead(h, i);
    BlockSize(h, p);
    RelistedSound(h, p);
    RelistedExactly(h, p);
    StaysListedIff(h, p);
    LastOff(h, Relisted(h, p), {p} + Behind(h, p), p);
  }

  lemma FitIsHead(h: Heap, i: int)
    requires Sound(h, {}) && |h.lists| == FREELIST_COUNT && LowestFit(h, 0, i)
    ensures FindFit(h, 0, 0) == h.lists[i][0] && h.lists[i][0] != 0 && IsFree(h, h.lists[i][0])
  {
    assert ListIndex(0) == 0;
    FindFitLowest(h, 0, 0);
    assert HeadFits(h, i, 0);
    OneLowest(h, 0, FindFit(h, 0, 0));
  }

  /** When no block is free, the heap is extended by a page, if there is room, and the new block is handed out
      and stays free and listed. */
  lemma MallocNoneExtended(h: Heap)
    requires Quiescent(h) && |h.lists| == FREELIST_COUNT && NoneFree(h)
    ensures h.hi + h.page <= h.limit ==>
      CanGrow(h, h.page) && MallocNone(h) == (Extended(h, h.page), ExtensionPoint(h, h.page))
    ensures h.hi + h.page > h.limit ==> MallocNone(h) == (h, 0)
  {
    hide Tiled, BitsSound, Indexed, AllBitsSet, Live, Relisted, Extended, ListIndex;
    NoneFits(h);
    if h.hi + h.page <= h.limit {
      PageGrows(h);
      ExtensionRelisted(h, h.page);
    }
  }

  /** Giving the extension back at once changes nothing: it is the last block, and last on its list. */
  lemma ExtensionRelisted(h: Heap, n: int)
    requires Sound(h, {}) && AllBitsSet(h) && CanGrow(h, n)
    ensures var g, r := Extended(h, n), ExtensionPoint(h, n);
      && Sound(g, {}) && IsFree(g, r) && |g.lists| == FREELIST_COUNT && g.blocks[r].size >= 0
      && Relisted(g, r) == g
  {
    hide Tiled, BitsSound, Indexed, AllBitsSet, Relisted, Extended, ListIndex, Relists, ExtensionPoint;
    ExtendedSound(h, n);
    ExtendedBlocks(h, n);
    ExtendedExactly(h, n);
    var g, r := Extended(h, n), ExtensionPoint(h, n);
    SeventeenLists(g, {});
    BlockSize(g, r);
    RelistedExactly(g, r);
    BreakIsNoBlock(g);
    assert Behind(g, r) == {};
    assert {r} + {} == {r};
    LastAgain(h, g, Relisted(g, r), if h.epi then {} else {r}, r);
    BitOf(g, r);
    assert (g.blocks - {})[r := g.blocks[r]] == g.blocks;
  }

  lemma BitOf(h: Heap, p: int)
    requires AllBitsSet(h) && IsFree(h, p)
    ensures h.blocks[p] == Block(h.blocks[p].size, false, true)
  {
  }

  /** A last node that is taken off and listed again leaves the lists as they were. */
  lemma LastAgain(h: Heap, g: Heap, c: Heap, x: set<int>, r: int)
    requires Relists(h, g, x, r) && Indexed(g, {}) && IsFree(g, r) && Relists(g, c, {r}, r)
    requires c.blocks[r].size == g.blocks[r].size
    ensures c.lists == g.lists
  {
    var i := ListIndex(g.blocks[r].size);
    forall j | 0 <= j < FREELIST_COUNT
      ensures c.lists[j] == g.lists[j]
    {
      var l := g.lists[j];
      if j == i {
        WithoutMinus(l, r);
        WithoutAt(l, |l| - 1);
        assert l[..|l| - 1] + l[|l|..] == l[..|l| - 1] == Minus(h.lists[j], x);
      } else {
        forall q | q in l
          ensures q !in {r}
        {
          Listed(g, {}, j, q);
        }
        MinusNone(l, {r});
      }
    }
  }

  // ---- when the heap survives ------------------------------------------------------------------

  ghost predicate AllocBefore(h: Heap, p: int) {
    exists q :: IsAlloc(h, q) && End(h, q) == p
  }

  /** The list `j` once the block `n` is off it, if it was on it. */
  function Rest(h: Heap, n: int, j: int): seq<int>
    requires n in h.blocks && h.blocks[n].size >= 0 && 0 <= j < |h.lists|
  {
    if ClassOf(h, n) == j then Without(h.lists[j], n) else h.lists[j]
  }

  /** Block `p` and the free block behind it make a block of another class, whose list holds no other. */
  ghost predicate MovesAlone(h: Heap, p: int)
    requires p in h.blocks && |h.lists| == FREELIST_COUNT
  {
    && NextFree(h, p)
    && var n := End(h, p); var size := h.blocks[p].size + h.blocks[n].size;
       && h.blocks[p].size >= 0 && h.blocks[n].size >= 0
       && ListIndex(size) != ClassOf(h, p) && Rest(h, n, ListIndex(size)) == []
  }

  /** What a caller can check before the call: nothing is free; or the block that find_fit takes has an
      allocated block before it, and merging it with the block behind it moves it to a list of its own. */
  ghost predicate Survives(h: Heap)
    requires Quiescent(h)
  {
    var p := (SeventeenLists(h, {}); FindFit(h, 0, 0));
    p == 0 || (p in h.blocks && AllocBefore(h, p) && MovesAlone(h, p))
  }

  /** The block given back is alone on another list exactly when it was merged and moved alone. */
  lemma StaysListedIff(h: Heap, p: int)
    requires Sound(h, {}) && AllBitsSet(h) && IsFree(h, p) && |h.lists| == FREELIST_COUNT && h.blocks[p].size >= 0
    ensures var c := Relisted(h, p); IsFree(c, p) && c.blocks[p].size >= 0 && |c.lists| == FREELIST_COUNT
    ensures StaysListed(Relisted(h, p), p, ClassOf(h, p)) <==> MovesAlone(h, p)
  {
    hide Tiled, BitsSound, Indexed, Relisted, AllBitsSet, StaysListed, MovesAlone;
    RelistedSound(h, p);
    if NextFree(h, p) {
      BlockSize(h, p);
      BlockSize(h, End(h, p));
      RelistedMerged(h, p);
      StaysWhenMoved(h, Relisted(h, p), p);
    } else {
      RelistedAlone(h, p);
      StaysNot(h, Relisted(h, p), p);
    }
  }

  lemma StaysWhenMoved(h: Heap, c: Heap, p: int)
    requires p in h.blocks && NextFree(h, p) && h.blocks[p].size >= 0 && h.blocks[End(h, p)].size >= 0
    requires p in c.blocks && |h.lists| == |c.lists| == FREELIST_COUNT
    requires c.blocks[p].size == h.blocks[p].size + h.blocks[End(h, p)].size
    requires ClassOf(c, p) != ClassOf(h, p) ==> c.lists[ClassOf(c, p)] == Rest(h, End(h, p), ClassOf(c, p)) + [p]
    ensures StaysListed(c, p, ClassOf(h, p)) <==> MovesAlone(h, p)
  {
    hide Rest, ListIndex;
    if ClassOf(c, p) != ClassOf(h, p) {
      assert |c.lists[ClassOf(c, p)]| == |Rest(h, End(h, p), ClassOf(c, p))| + 1;
    }
  }

  lemma StaysNot(h: Heap, c: Heap, p: int)
    requires p in h.blocks && !NextFree(h, p) && h.blocks[p].size >= 0 && |h.lists| == |c.lists| == FREELIST_COUNT
    requires p in c.blocks && c.blocks[p].size == h.blocks[p].size
    ensures !StaysListed(c, p, ClassOf(h, p)) && !MovesAlone(h, p)
  {
  }

  lemma RelistedAlone(h: Heap, p: int)
    requires Sound(h, {}) && AllBitsSet(h) && IsFree(h, p) && |h.lists| == FREELIST_COUNT && h.blocks[p].size >= 0
    requires !NextFree(h, p)
    ensures var c := Relisted(h, p); p in c.blocks && c.blocks[p].size == h.blocks[p].size
  {
    hide Tiled, BitsSound, Indexed;
    UnlistSound(h, {}, p);
    assert {} + {p} == {p};
    CoalescedBlocks(Unlist(h, p), p);
  }

  /** Block and list after merging with the block behind. */
  lemma RelistedMerged(h: Heap, p: int)
    requires Sound(h, {}) && AllBitsSet(h) && IsFree(h, p) && |h.lists| == FREELIST_COUNT && h.blocks[p].size >= 0
    requires NextFree(h, p) && h.blocks[End(h, p)].size > 0 && h.blocks[p].size > 0
    ensures var c := Relisted(h, p); var n := End(h, p); var size := h.blocks[p].size + h.blocks[n].size;
      && p in c.blocks && c.blocks[p].size == size && |c.lists| == FREELIST_COUNT
      && (ListIndex(size) != ClassOf(h, p) ==> c.lists[ListIndex(size)] == Rest(h, n, ListIndex(size)) + [p])
  {
    hide Tiled, BitsSound, Indexed, ListIndex, Without;
    UnlistSound(h, {}, p);
    assert {} + {p} == {p};
    var g := Unlist(h, p);
    CoalesceSteps(g, p);
    StartsFree(MergeNext(g, p), p);
    MergeNextHere(g, p);
    MergedLists(h, p);
  }

  lemma MergedLists(h: Heap, p: int)
    requires IsFree(h, p) && |h.lists| == FREELIST_COUNT && h.blocks[p].size > 0 && Tiled(Unlist(h, p))
    requires NextFree(h, p) && h.blocks[End(h, p)].size > 0
    ensures var g := MergeNext(Unlist(h, p), p); var n := End(h, p); var size := h.blocks[p].size + h.blocks[n].size;
      && p in g.blocks && g.blocks[p].size == size && |g.lists| == FREELIST_COUNT
      && (ListIndex(size) != ClassOf(h, p) ==> g.lists[ListIndex(size)] == Rest(h, n, ListIndex(size)))
  {
    hide Tiled, ListIndex, Without;
  }

  lemma MergeNextHere(g: Heap, p: int)
    requires Sound(g, {p}) && p in g.blocks && g.blocks[p].prev && Sound(MergeNext(g, p), {p})
    requires IsFree(MergeNext(g, p), p) && |MergeNext(g, p).lists| == FREELIST_COUNT
    ensures MergePoint(g, p) == p && MergePrev(MergeNext(g, p), p) == MergeNext(g, p)
  {
    MergeNextSound(g, {p}, p);
  }

  /** A block that is free but on no list is not allowed between calls. */
  lemma UnlistedUnsound(h: Heap, p: int)
    requires Sound(h, {}) && IsFree(h, p)
    ensures |h.lists| == FREELIST_COUNT && h.blocks[p].size >= 0 && !Sound(Unlist(h, p), {})
  {
    assert Placed(h, p);
    var i := ListIndex(h.blocks[p].size);
    WithoutMembers(h.lists[i], p);
    assert p !in Unlist(h, p).lists[i];
    assert IsFree(Unlist(h, p), p);
  }

  /** The lists are in order after the call exactly when no block was free, or the block moved alone. */
  lemma MallocNoneSoundIff(h: Heap)
    requires Quiescent(h)
    ensures |h.lists| == FREELIST_COUNT
    ensures Sound(MallocNone(h).0, {}) <==>
            var p := FindFit(h, 0, 0); p == 0 || (p in h.blocks && MovesAlone(h, p))
  {
    hide Tiled, BitsSound, Indexed, AllBitsSet, Relisted, Extended, MovesAlone;
    SeventeenLists(h, {});
    MallocNoneFrees(h);
    var p := FindFit(h, 0, 0);
    FindFitLowest(h, 0, 0);
    if p != 0 {
      BlockSize(h, p);
      RelistedSound(h, p);
      StaysListedIff(h, p);
      UnlistedUnsound(Relisted(h, p), p);
    } else if h.hi + h.page <= h.limit {
      PageGrows(h);
      ExtendedSound(h, h.page);
      ExtendedBlocks(h, h.page);
      SeventeenLists(Extended(h, h.page), {});
      RelistedSound(Extended(h, h.page), ExtensionPoint(h, h.page));
    }
  }

  /** When nothing was free, the extension lies behind an allocated block. */
  lemma ExtensionBehindAlloc(h: Heap, n: int)
    requires Quiescent(h) && CanGrow(h, n) && NoneFree(h)
    ensures AllocBefore(h, ExtensionPoint(h, n))
  {
    hide BitsSound, Indexed, AllBitsSet, Live;
    ExtendMergesBackward(h, n);
    assert h.epi;
    GrownTiled(h, n);
    var q := BlockBefore(Grown(h, n), h.hi);
    BlockSize(Grown(h, n), q);
    assert q in h.blocks && !IsFree(h, q);
    assert IsAlloc(h, q) && End(h, q) == h.hi;
  }

  /** After the call the heap is sound, with an allocated block before the one handed out, exactly when
      `Survives` held before it. */
  lemma SurvivesIff(h: Heap)
    requires Quiescent(h)
    ensures var (h', p) := MallocNone(h);
      Survives(h) <==> p == 0 || (Sound(h', {}) && AllocBefore(h', p))
  {
    hide Sound, AllBitsSet, Live, MovesAlone;
    MallocNoneFrees(h);
    MallocNoneSoundIff(h);
    NoneFits(h);
    var (h', p) := MallocNone(h);
    if FindFit(h, 0, 0) == 0 && p != 0 {
      NoneExtends(h);
      ExtensionBehindAlloc(h, h.page);
    }
    if q :| IsAlloc(h, q) && End(h, q) == p {
      assert IsAlloc(h', q) && End(h', q) == p;
    }
    if q :| IsAlloc(h', q) && End(h', q) == p {
      assert IsAlloc(h, q) && End(h, q) == p;
    }
  }

  lemma NoneExtends(h: Heap)
    requires Quiescent(h) && |h.lists| == FREELIST_COUNT && FindFit(h, 0, 0) == 0 && MallocNone(h).1 != 0
    ensures CanGrow(h, h.page) && MallocNone(h).1 == ExtensionPoint(h, h.page)
  {
    PageGrows(h);
  }

  /** A heap that does not survive: its only free block is handed out and is then on no list. */
  lemma OnlyBlockLost(h: Heap, b: int)
    requires Quiescent(h) && OnlyLast(h, b)
    ensures var (h', p) := MallocNone(h);
      && p == b && IsFree(h', b) && !Sound(h', {})
      && |h'.lists| == FREELIST_COUNT && (forall i :: 0 <= i < FREELIST_COUNT ==> h'.lists[i] == [])
      && !Survives(h)
  {
    hide BitsSound, AllBitsSet, Live, Relisted, MallocNone;
    SeventeenLists(h, {});
    MallocNoneFrees(h);
    MallocNoneSoundIff(h);
    FitsOnlyLast(h, b, 0);
    BreakIsNoBlock(h);
    assert !NextFree(h, b);
    NoneTakesFit(h);
    var h' := MallocNone(h).0;
    assert Sound(h', {b});
    hide Tiled;
    forall q | IsFree(h', q)
      ensures q == b
    {
      NoneAddsFree(h, b, q);
    }
    forall i | 0 <= i < FREELIST_COUNT
      ensures h'.lists[i] == []
    {
      if h'.lists[i] != [] {
        Listed(h', {b}, i, h'.lists[i][0]);
        assert false;
      }
    }
  }

  lemma NoneTakesFit(h: Heap)
    requires Quiescent(h) && |h.lists| == FREELIST_COUNT && FindFit(h, 0, 0) != 0
    ensures MallocNone(h).1 == FindFit(h, 0, 0)
  {
  }

  /** Without a free block behind it, giving block `p` back makes no other block free. */
  lemma NoneAddsFree(h: Heap, p: int, q: int)
    requires Quiescent(h) && |h.lists| == FREELIST_COUNT && FindFit(h, 0, 0) == p != 0
    requires p in h.blocks && IsFree(MallocNone(h).0, q)
    ensures IsFree(h, q)
  {
    hide Tiled, BitsSound, Indexed, Coalesced;
    FindFitLowest(h, 0, 0);
    BlockSize(h, p);
    UnlistSound(h, {}, p);
    assert {} + {p} == {p};
    CoalescedBlocks(Unlist(h, p), p);
  }

  /** Two calls from a fresh heap lose all free space, although the block before the one handed out is
      allocated: mm_malloc(12), and then a size that wraps to zero. */
  lemma WrapLosesHeap(lo: int, limit: int, page: int) returns (h: Heap)
    requires CanInit(lo, limit, page) && page >= 64
    ensures Quiescent(InitHeap(lo, limit, page)) && Reaches(InitHeap(lo, limit, page), [CallMalloc(12)], h)
    ensures Quiescent(h) && AllocBefore(h, lo + 16) && !Survives(h)
    ensures var (h', p) := MallocNone(h);
      && p == lo + 16 && IsFree(h', p) && !Sound(h', {})
      && |h'.lists| == FREELIST_COUNT && (forall i :: 0 <= i < FREELIST_COUNT ==> h'.lists[i] == [])
  {
    InitQuiescent(lo, limit, page);
    FirstIsLast(lo, limit, page);
    hide Quiescent, InitHeap, CanInit, OnlyLast, MallocNone, Reaches, AllocBefore, Survives;
    h := WrapLosesLast(InitHeap(lo, limit, page), lo);
  }

  /** The same from any heap whose only free block is the last one. */
  lemma WrapLosesLast(h0: Heap, b: int) returns (h: Heap)
    requires Quiescent(h0) && OnlyLast(h0, b) && b in h0.blocks && h0.blocks[b].size >= 64
    ensures Reaches(h0, [CallMalloc(12)], h)
    ensures Quiescent(h) && AllocBefore(h, b + 16) && !Survives(h)
    ensures var (h', p) := MallocNone(h);
      && p == b + 16 && IsFree(h', p) && !Sound(h', {})
      && |h'.lists| == FREELIST_COUNT && (forall i :: 0 <= i < FREELIST_COUNT ==> h'.lists[i] == [])
  {
    hide Quiescent, OnlyLast, MallocNone, Survives;
    h := CarveSmall(h0, b);
    hide Next, Legal;
    assert [CallMalloc(12)][1..] == [];
    assert Reaches(h, [], h);
    assert IsAlloc(h, b) && End(h, b) == b + 16;
    OnlyBlockLost(h, b + 16);
  }

  /** A heap that survives although a block is free: sixteen bytes allocated, and twice sixteen free. */
  lemma SurvivesPossible()
    ensures var h := OneThenTwo(); Quiescent(h) && IsFree(h, 40) && Survives(h)
  {
    var h := OneThenTwo();
    OneThenTwoQuiescent();
    FindsSecond();
    assert IsAlloc(h, 24) && End(h, 24) == 40;
    SixteenIsFour();
    assert Log2(32) == 1 + Log2(16);
    assert h.lists[5] == [];
    hide Quiescent, FindFit;
  }

  function OneThenTwo(): Heap {
    Heap(24, 72, 72, 16, true,
         map[24 := Block(16, true, true), 40 := Block(16, false, true), 56 := Block(16, false, true)],
         seq(FREELIST_COUNT, i => if i == 4 then [40, 56] else []), map[24 := 12])
  }

  lemma OneThenTwoQuiescent()
    ensures Quiescent(OneThenTwo())
  {
    var h := OneThenTwo();
    OneThenTwoTiled();
    hide Tiled;
    assert BitsSound(h);
    assert Serves(h.blocks[24], 12);
    assert Live(h);
    SixteenIsFour();
    IndexedTwo(h, {}, 4, 40, 56);
  }

  lemma OneThenTwoTiled()
    ensures Tiled(OneThenTwo())
  {
  }

  lemma FindsSecond()
    ensures FindFit(OneThenTwo(), 0, 0) == 40
  {
    var h := OneThenTwo();
    assert !HeadFits(h, 0, 0) && !HeadFits(h, 1, 0) && !HeadFits(h, 2, 0) && !HeadFits(h, 3, 0) && HeadFits(h, 4, 0);
    assert FindFit(h, 0, 4) == 40;
    assert FindFit(h, 0, 3) == FindFit(h, 0, 4);
    assert FindFit(h, 0, 2) == FindFit(h, 0, 3);
    assert FindFit(h, 0, 1) == FindFit(h, 0, 2);
  }

  // ---- memory with one wrong word --------------------------------------------------------------

  /** The word before the header of `p` is no header and no link of any block. */
  lemma DentApart(h: Heap, p: int, q: int)
    requires Tiled(h) && p in h.blocks && q in h.blocks
    ensures p - 8 != q - 4 && p - 8 != q && p - 8 != q + 4 && p - 8 != End(h, q) - 4
  {
    assert Placed(h, p) && Placed(h, q);
    if p - 8 == End(h, q) - 4 {
      AlignedSum(q, h.blocks[q].size);
      AlignedSum(p, End(h, q));
    }
  }

  /** Memories `m` and `v` agree but for word `d`. */
  ghost predicate ButFor(m: Mem, v: Mem, d: int) {
    forall c :: c != d ==> Rd(v, c) == Rd(m, c)
  }

  /** So do `m'` and `v'`, which have the same words at `d` as `m` and `v`. */
  ghost predicate StillBut(m: Mem, v: Mem, m': Mem, v': Mem, d: int) {
    ButFor(m', v', d) && Rd(m', d) == Rd(m, d) && Rd(v', d) == Rd(v, d)
  }

  lemma StillTrans(m: Mem, v: Mem, m1: Mem, v1: Mem, m2: Mem, v2: Mem, d: int)
    requires StillBut(m, v, m1, v1, d) && StillBut(m1, v1, m2, v2, d)
    ensures StillBut(m, v, m2, v2, d)
  {
  }

  /** The same write on both memories keeps their difference. */
  lemma WriteBut(m: Mem, v: Mem, d: int, a: int, w: Word)
    requires ButFor(m, v, d) && a != d
    ensures StillBut(m, v, m[a := w], v[a := w], d)
  {
    var m', v' := m[a := w], v[a := w];
    forall c | c != d
      ensures Rd(v', c) == Rd(m', c)
    {
      assert Rd(v, c) == Rd(m, c);
    }
  }

  lemma ReadBut(m: Mem, v: Mem, d: int, a: int)
    requires ButFor(m, v, d) && a != d
    ensures Rd(v, a) == Rd(m, a)
  {
  }

  /** remove_from_list does not meet the word before the header of a block. */
  lemma UnlinkBut(m: Mem, v: Mem, f: seq<int>, i: int, h: Heap, x: set<int>, p: int, b: int)
    requires Sound(h, x) && Rep(m, f, h) && IsFree(h, p) && p !in x && b in h.blocks && 0 <= i < FREELIST_COUNT
    requires ButFor(m, v, b - 8)
    ensures StillBut(m, v, Unlinked(m, p), Unlinked(v, p), b - 8)
    ensures UnlinkedHeads(Unlinked(v, p), f, i, p) == UnlinkedHeads(Unlinked(m, p), f, i, p)
  {
    hide Sound, Rep, ButFor, Unlinked;
    LinksApart(m, f, h, x, p, b);
    UnlinkedBut(m, v, p, b - 8);
    ReadBut(Unlinked(m, p), Unlinked(v, p), b - 8, p);
  }

  /** The words that remove_from_list reads and writes are not the word before the header of a block. */
  lemma LinksApart(m: Mem, f: seq<int>, h: Heap, x: set<int>, p: int, b: int)
    requires Sound(h, x) && Rep(m, f, h) && IsFree(h, p) && p !in x && b in h.blocks
    ensures b - 8 != p && b - 8 != p + 4 && |f| == FREELIST_COUNT
    ensures (Rd(m, p) != 0 ==> b - 8 != Rd(m, p) + 4) && (Rd(m, p + 4) != 0 ==> b - 8 != Rd(m, p + 4))
  {
    NeighboursListed(m, f, h, x, p);
    hide Tiled, BitsSound, Indexed, Tags;
    DentApart(h, b, p);
    if Rd(m, p) != 0 {
      DentApart(h, b, Rd(m, p));
    }
    if Rd(m, p + 4) != 0 {
      DentApart(h, b, Rd(m, p + 4));
    }
  }

  lemma UnlinkedBut(m: Mem, v: Mem, p: int, d: int)
    requires ButFor(m, v, d) && d != p && d != p + 4
    requires (Rd(m, p) != 0 ==> d != Rd(m, p) + 4) && (Rd(m, p + 4) != 0 ==> d != Rd(m, p + 4))
    ensures StillBut(m, v, Unlinked(m, p), Unlinked(v, p), d)
  {
    ReadBut(m, v, d, p);
    ReadBut(m, v, d, p + 4);
    var n: int, q := Rd(m, p), Rd(m, p + 4);
    var m1: Mem := if n != 0 then m[n + 4 := q] else m;
    var v1: Mem := if n != 0 then v[n + 4 := q] else v;
    if n != 0 {
      WriteBut(m, v, d, n + 4, q);
    }
    assert Rd(m1, p + 4) == q == Rd(v1, p + 4);
    hide ButFor;
    ReadBut(m1, v1, d, p);
    if q != 0 {
      WriteBut(m1, v1, d, q, Rd(m1, p));
    }
  }

  /** Nor does add_to_list, walking or writing. */
  lemma ChainBut(m: Mem, v: Mem, head: int, h: Heap, x: set<int>, p: int, i: int)
    requires Sound(h, x) && p in x && 0 <= i < FREELIST_COUNT && Chain(m[p := 0], head, h.lists[i])
    requires ButFor(m, v, p - 8)
    ensures Chain(v[p := 0], head, h.lists[i])
  {
    forall q | q in h.lists[i]
      ensures Rd(v[p := 0], q) == Rd(m[p := 0], q) && Rd(v[p := 0], q + 4) == Rd(m[p := 0], q + 4)
    {
      Listed(h, x, i, q);
      DentApart(h, p, q);
      WriteBut(m, v, p - 8, p, 0);
    }
    ChainFrame(m[p := 0], v[p := 0], head, h.lists[i]);
  }

  lemma TailBut(m: Mem, v: Mem, h: Heap, x: set<int>, p: Word, i: int)
    requires Sound(h, x) && p in x && 0 <= i < FREELIST_COUNT && 0 <= Last(h.lists[i]) < WORD_SPAN
    requires ButFor(m, v, p - 8)
    ensures StillBut(m, v, Linked(m, p, Last(h.lists[i])), Linked(v, p, Last(h.lists[i])), p - 8)
  {
    var t := Last(h.lists[i]);
    WriteBut(m, v, p - 8, p, 0);
    if t == 0 {
      WriteBut(m[p := 0], v[p := 0], p - 8, p + 4, 0);
    } else {
      assert t in h.lists[i];
      Listed(h, x, i, t);
      DentApart(h, p, t);
      WriteBut(m[p := 0], v[p := 0], p - 8, t, p);
      WriteBut(m[p := 0][t := p], v[p := 0][t := p], p - 8, p + 4, t);
    }
  }

  /** Header and footer of a block, written on both memories. */
  lemma TagsBut(m: Mem, m': Mem, v: Mem, v': Mem, p: int, e: int, w: Word)
    requires ButFor(m, v, p - 8) && Wrote(v, v', p - 4, e - 8, w) && p < e
    requires m' == m[p - 4 := w][e - 8 := w]
    ensures StillBut(m, v, m', v', p - 8) && Wrote(m, m', p - 4, e - 8, w)
  {
  }

  /** The block is the last node of its list. */
  ghost predicate LastOfList(h: Heap, p: int) {
    && IsFree(h, p) && h.blocks[p].size >= 0 && |h.lists| == FREELIST_COUNT
    && var l := h.lists[ClassOf(h, p)]; Distinct(l) && l != [] && l[|l| - 1] == p
  }

  /** What remove_from_list on list `i` does to the last node of its own list. */
  lemma SecondUnlink(m: Mem, f: seq<int>, h: Heap, p: int, i: int)
    requires Sound(h, {}) && Rep(m, f, h) && LastOfList(h, p) && 0 <= i < FREELIST_COUNT
    ensures var m' := Unlinked(m, p);
      && Rep(m', UnlinkedHeads(m', f, i, p), if StaysListed(h, p, i) then h else Unlist(h, p))
      && Kept(m, m', h)
  {
    hide Tiled, BitsSound, Tags;
    var j := ClassOf(h, p);
    HeadHasNoPrev(m, f, h, j);
    UnlinkStep(m, f, h, {}, p);
    if i != j {
      OtherHead(m, f, h, p, i);
    }
  }

  lemma OtherHead(m: Mem, f: seq<int>, h: Heap, p: int, i: int)
    requires Sound(h, {}) && Chains(m, f, h.lists) && IsFree(h, p) && h.blocks[p].size >= 0
    requires 0 <= i < FREELIST_COUNT && i != ClassOf(h, p)
    ensures f[i] != p
  {
    assert Chain(m, f[i], h.lists[i]) && Placed(h, p);
    if h.lists[i] != [] {
      Listed(h, {}, i, h.lists[i][0]);
    }
  }

  /** The four tag writes of allocate for an adjusted size of zero leave the same heap, but for the word
      before the header. */
  lemma NothingStep(m: Mem, m1: Mem, m2: Mem, f: seq<int>, h: Heap, p: int, w: Word) returns (m': Mem)
    requires Sound(h, {p}) && Rep(m, f, h) && p in h.blocks && h.blocks[p].prev
    requires w == h.blocks[p].size + PREVALLOC
    requires Wrote(m, m1, p - 4, p - 8, DENT) && Wrote(m1, m2, p - 4, End(h, p) - 8, w)
    ensures ButFor(m', m2, p - 8) && Rd(m2, p - 8) == DENT
    ensures Rep(m', f, h) && Kept(m, m', h)
  {
    hide Tiled, BitsSound, Indexed, Tags, Chains, Kept;
    StartsFree(h, p);
    SizeFits(h, p);
    m' := m[p - 4 := w][End(h, p) - 8 := w];
    SpanRep(m, m', f, h, h, {p}, h, p, p, w);
  }

  // ---- whose word it is --------------------------------------------------------------------------

  /** Every block but the first has a block right before it. */
  lemma BlockBefore(h: Heap, p: int) returns (q: int)
    requires Tiled(h) && p in h.blocks && p != h.lo
    ensures q in h.blocks && End(h, q) == p
  {
    var s := set a | a in h.blocks.Keys && a < p;
    assert h.lo in s;
    q := Greatest(s);
    assert Adjoins(h, q) && End(h, q) <= p;
    BlockSize(h, q);
    BlockSize(h, p);
    assert End(h, q) in h.blocks && End(h, q) !in s;
  }

  /** The word that the call overwrites is the footer of the prologue, the footer of a free block, or
      the last payload word of an allocated one. */
  lemma DentHits(m: Mem, h: Heap, p: int)
    requires Tiled(h) && Tags(m, h) && p in h.blocks
    ensures || (p == h.lo && Rd(m, p - 8) == 8 + Flags(true, true))
            || (exists q :: IsFree(h, q) && End(h, q) == p && GetSize(Rd(m, p - 8)) == h.blocks[q].size)
            || (exists q :: IsAlloc(h, q) && q + 8 <= p - 8 == End(h, q) - 8)
  {
    if p != h.lo {
      var q := BlockBefore(h, p);
      BlockSize(h, q);
      if IsFree(h, q) {
        assert TagAt(m, h, q);
      } else {
        assert IsAlloc(h, q);
      }
    }
  }

  /** With the word overwritten the memory still represents the heap exactly when the word belongs to an
      allocated payload. */
  lemma DentHarmlessIff(m: Mem, f: seq<int>, h: Heap, x: set<int>, p: int)
    requires Sound(h, x) && Rep(m, f, h) && p in h.blocks
    ensures Rep(m[p - 8 := DENT], f, h) <==> AllocBefore(h, p)
  {
    var m' := m[p - 8 := DENT];
    if p == h.lo {
      assert !Ends(m', h);
      assert forall q :: q in h.blocks ==> q >= p;
    } else {
      var q := BlockBefore(h, p);
      BlockSize(h, q);
      if IsFree(h, q) {
        assert GetSize(DENT) == 0;
        assert !TagAt(m', h, q);
        OnlyBefore(h, p, q);
      } else {
        DentTags(m, h, p, q);
        DentChains(m, f, h, x, p);
        assert IsAlloc(h, q) && End(h, q) == p;
      }
    }
  }

  lemma OnlyBefore(h: Heap, p: int, q: int)
    requires Tiled(h) && q in h.blocks && End(h, q) == p
    ensures forall a :: a in h.blocks && End(h, a) == p ==> a == q
  {
  }

  lemma DentTags(m: Mem, h: Heap, p: int, q: int)
    requires Tiled(h) && Tags(m, h) && p in h.blocks && IsAlloc(h, q) && End(h, q) == p
    ensures Tags(m[p - 8 := DENT], h)
  {
    var m' := m[p - 8 := DENT];
    forall a | a in h.blocks
      ensures TagAt(m', h, a)
    {
      assert TagAt(m, h, a);
      DentApart(h, p, a);
      OnlyBefore(h, p, q);
    }
    assert Placed(h, q);
  }

  lemma DentChains(m: Mem, f: seq<int>, h: Heap, x: set<int>, p: int)
    requires Sound(h, x) && Chains(m, f, h.lists) && p in h.blocks
    ensures Chains(m[p - 8 := DENT], f, h.lists)
  {
    var m' := m[p - 8 := DENT];
    forall i | 0 <= i < FREELIST_COUNT
      ensures Chain(m', f[i], h.lists[i])
    {
      forall q | q in h.lists[i]
        ensures Rd(m', q) == Rd(m, q) && Rd(m', q + 4) == Rd(m, q + 4)
      {
        Listed(h, x, i, q);
        DentApart(h, p, q);
      }
      ChainFrame(m, m', f[i], h.lists[i]);
    }
  }

  // ---- mm_realloc ---------------------------------------------------------------------------------

  /** The memcpy of mm_realloc would write past the payload that mm_malloc has handed out: that of the new
      block, or no bytes at all when the size wraps to zero. */
  ghost predicate CopyOverruns(h: Heap, p: int, size: Word)
    requires Quiescent(h) && p in h.blocks
  {
    var n := Min(h.blocks[p].size, size);
    if WrapsToZero(size) then MallocNone(h).1 != 0 && n > 0
    else var (h', r) := Malloc(h, Served(size));
      r != 0 && r in h'.blocks && n > h'.blocks[r].size - 4
  }

  /** Up to 2^32-12 bytes the copy stays inside the new block.  With one of the last three sizes the whole
      old block goes to the block for twelve bytes: past its payload, except from a block of the smallest
      size into one that was taken whole. */
  lemma CopyOverrunsIff(h: Heap, p: int, size: Word)
    requires Quiescent(h) && p in h.req
    ensures p in h.blocks
    ensures size <= MAX_REQUEST ==> !CopyOverruns(h, p, size)
    ensures WrapsToZero(size) ==> (CopyOverruns(h, p, size) <==> MallocNone(h).1 != 0)
    ensures size >= WORD_SPAN - 3 && Malloc(h, 12).1 != 0 ==>
      var (h', r) := Malloc(h, 12);
      r in h'.blocks && (CopyOverruns(h, p, size) <==> !(h.blocks[p].size == 16 && h'.blocks[r].size == 24))
  {
    hide BitsSound, Indexed, AllBitsSet, Malloc, MallocNone;
    assert IsAlloc(h, p) && Placed(h, p);
    if !WrapsToZero(size) {
      MallocKeeps(h, Served(size));
      var (h', r) := Malloc(h, Served(size));
      if r != 0 {
        assert IsAlloc(h', r) && Placed(h', r) && Serves(h'.blocks[r], Served(size));
      }
    }
  }
}
