/** What each operation does to the blocks and to the lists of the heap, written out: which blocks are
    there afterwards, and that every list is the old one without the blocks that left it, with the block
    given back as its last node. */
module Effects {
  import opened Words
  import opened SizeClass
  import opened HeapSpec
  import opened HeapOps
  import opened Steps
  import opened Runs

  /** The list without the nodes of `x`, the others in order. */
  function Minus(l: seq<int>, x: set<int>): seq<int> {
    if l == [] then [] else (if l[0] in x then [] else [l[0]]) + Minus(l[1..], x)
  }

  /** Every list has lost the blocks of `x`; block `r` has become the last node of its class. */
  ghost predicate Relists(h: Heap, h': Heap, x: set<int>, r: int) {
    && |h.lists| == |h'.lists| == FREELIST_COUNT && r in h'.blocks && h'.blocks[r].size >= 0
    && forall j :: 0 <= j < FREELIST_COUNT ==>
         h'.lists[j] == Minus(h.lists[j], x) + (if j == ListIndex(h'.blocks[r].size) then [r] else [])
  }

  /** Every list has lost the blocks of `x`. */
  ghost predicate Delists(h: Heap, h': Heap, x: set<int>) {
    && |h.lists| == |h'.lists| == FREELIST_COUNT
    && forall j :: 0 <= j < FREELIST_COUNT ==> h'.lists[j] == Minus(h.lists[j], x)
  }

  lemma {:induction false} MinusNone(l: seq<int>, x: set<int>)
    requires forall p :: p in l ==> p !in x
    ensures Minus(l, x) == l
  {
    if l != [] {
      var p := l[0];
      assert p in l && p !in x;
      MinusNone(l[1..], x);
      assert l == [p] + l[1..];
    }
  }

  lemma {:induction false} MinusTwice(l: seq<int>, x: set<int>, y: set<int>)
    ensures Minus(Minus(l, x), y) == Minus(l, x + y)
  {
    if l != [] {
      MinusTwice(l[1..], x, y);
      var t := Minus(l[1..], x);
      if l[0] in x {
        assert Minus(l, x) == t;
      } else {
        var u := [l[0]] + t;
        assert Minus(l, x) == u && u[0] == l[0] && u[1..] == t;
        assert Minus(u, y) == (if u[0] in y then [] else [u[0]]) + Minus(t, y);
      }
    }
  }

  lemma {:induction false} WithoutMinus(l: seq<int>, p: int)
    requires Distinct(l)
    ensures Without(l, p) == Minus(l, {p})
  {
    if l != [] {
      if l[0] == p {
        assert forall q :: q in l[1..] ==> q != p;
        MinusNone(l[1..], {p});
      } else {
        WithoutMinus(l[1..], p);
      }
    }
  }

  lemma DelistsNone(h: Heap)
    requires |h.lists| == FREELIST_COUNT
    ensures Delists(h, h, {})
  {
    forall j | 0 <= j < FREELIST_COUNT
      ensures h.lists[j] == Minus(h.lists[j], {})
    {
      MinusNone(h.lists[j], {});
    }
  }

  lemma UnlistDelists(h: Heap, x: set<int>, p: int)
    requires Indexed(h, x) && IsFree(h, p) && p !in x
    ensures h.blocks[p].size >= 0 && Delists(h, Unlist(h, p), {p})
  {
    var i := ListIndex(h.blocks[p].size);
    forall j | 0 <= j < FREELIST_COUNT
      ensures Unlist(h, p).lists[j] == Minus(h.lists[j], {p})
    {
      if j == i {
        WithoutMinus(h.lists[j], p);
      } else {
        forall q | q in h.lists[j]
          ensures q !in {p}
        {
          Listed(h, x, j, q);
        }
        MinusNone(h.lists[j], {p});
      }
    }
  }

  lemma DelistsTrans(h: Heap, h1: Heap, h2: Heap, x: set<int>, y: set<int>)
    requires Delists(h, h1, x) && Delists(h1, h2, y)
    ensures Delists(h, h2, x + y)
  {
    forall j | 0 <= j < FREELIST_COUNT
      ensures h2.lists[j] == Minus(h.lists[j], x + y)
    {
      MinusTwice(h.lists[j], x, y);
    }
  }

  lemma DelistsLists(h: Heap, h1: Heap, h2: Heap, x: set<int>)
    requires Delists(h, h1, x) && h1.lists == h2.lists
    ensures Delists(h, h2, x)
  {
  }

  // ---- coalesce ----------------------------------------------------------------------------------

  /** The end of the space that coalesce merges. */
  function MergedEnd(h: Heap, p: int): int
    requires p in h.blocks
  {
    if NextFree(h, p) then End(h, End(h, p)) else End(h, p)
  }

  /** The free block behind `p`, if there is one. */
  function Behind(h: Heap, p: int): set<int>
    requires p in h.blocks
  {
    if NextFree(h, p) then {End(h, p)} else {}
  }

  lemma MergeNextDelists(h: Heap, p: int)
    requires Sound(h, {p}) && IsFree(h, p) && |h.lists| == FREELIST_COUNT
    ensures Delists(h, MergeNext(h, p), Behind(h, p))
  {
    hide Tiled, BitsSound, Indexed, Delists;
    if NextFree(h, p) {
      NextUnlisted(h, p);
      UnlistDelists(h, {p}, End(h, p));
      DelistsLists(h, Unlist(h, End(h, p)), MergeNext(h, p), {End(h, p)});
    } else {
      DelistsNone(h);
    }
  }

  lemma MergePrevDelists(h: Heap, p: int)
    requires Sound(h, {p}) && IsFree(h, p) && |h.lists| == FREELIST_COUNT
    ensures Delists(h, MergePrev(h, p), {MergePoint(h, p)} - {p})
  {
    hide Tiled, BitsSound, Indexed, Delists;
    if h.blocks[p].prev {
      DelistsNone(h);
      assert {MergePoint(h, p)} - {p} == {};
    } else {
      PrevFree(h, p);
      var q := MergePoint(h, p);
      UnlistDelists(h, {p}, q);
      DelistsLists(h, Unlist(h, q), MergePrev(h, p), {q});
      assert {q} - {p} == {q};
    }
  }

  /** coalesce, exactly: one free block from the merge point to the end of the merged space, with the
      PREVALLOC bit of its first part; all other blocks as they were.  The absorbed neighbours leave their
      lists, and the merged block goes last on its own. */
  lemma CoalescedExactly(h: Heap, p: int)
    requires Sound(h, {p}) && p in h.blocks
    ensures var r := MergePoint(h, p); var h' := Coalesced(h, p);
      && r in h.blocks
      && h'.blocks == (h.blocks - {p} - Behind(h, p))[r := Block(MergedEnd(h, p) - r, false, h.blocks[r].prev)]
      && Relists(h, h', Behind(h, p) + ({r} - {p}), r)
      && h' == h.(blocks := h'.blocks, lists := h'.lists)
  {
    hide Sound, Coalesced, MergePoint, Relists, Behind, MergedEnd;
    CoalescedMap(h, p);
    CoalescedLists(h, p);
  }

  lemma CoalescedLists(h: Heap, p: int)
    requires Sound(h, {p}) && p in h.blocks
    ensures Relists(h, Coalesced(h, p), Behind(h, p) + ({MergePoint(h, p)} - {p}), MergePoint(h, p))
  {
    hide Tiled, BitsSound, Indexed, MergeNext, MergePrev, MergePoint, Behind;
    StartsFree(h, p);
    CoalesceSteps(h, p);
    var h1, r := MergeNext(h, p), MergePoint(h, p);
    StartsFree(h1, p);
    MergeNextDelists(h, p);
    MergePrevDelists(h1, p);
    var h2 := MergePrev(h1, p);
    DelistsTrans(h, h1, h2, Behind(h, p), {r} - {p});
    hide Minus;
  }

  lemma CoalescedMap(h: Heap, p: int)
    requires Sound(h, {p}) && p in h.blocks
    ensures var r := MergePoint(h, p); var h' := Coalesced(h, p);
      && r in h.blocks
      && h'.blocks == (h.blocks - {p} - Behind(h, p))[r := Block(MergedEnd(h, p) - r, false, h.blocks[r].prev)]
      && h' == h.(blocks := h'.blocks, lists := h'.lists)
  {
    hide Tiled, BitsSound, Indexed, Coalesced, MergePoint, Spans;
    CoalescedBlocks(h, p);
    MergedSpace(h, p);
    SpansMap(h, Coalesced(h, p), MergePoint(h, p), p);
  }

  lemma SpansMap(h: Heap, h': Heap, r: int, p: int)
    requires p in h.blocks && r in h.blocks && Spans(h, h', r, MergedEnd(h, p)) && IsFree(h', r)
    requires r <= p < MergedEnd(h, p) && (NextFree(h, p) ==> p < End(h, p) < MergedEnd(h, p))
    requires forall q :: q in h.blocks && r <= q < MergedEnd(h, p) ==> q == r || q == p || q in Behind(h, p)
    ensures h'.blocks == (h.blocks - {p} - Behind(h, p))[r := Block(MergedEnd(h, p) - r, false, h.blocks[r].prev)]
    ensures h' == h.(blocks := h'.blocks, lists := h'.lists)
  {
    var m := (h.blocks - {p} - Behind(h, p))[r := Block(MergedEnd(h, p) - r, false, h.blocks[r].prev)];
    forall q
      ensures q in h'.blocks <==> q in m
      ensures q in m ==> h'.blocks[q] == m[q]
    {
    }
  }

  /** No block starts inside the merged space but the merged ones. */
  lemma MergedSpace(h: Heap, p: int)
    requires Sound(h, {p}) && p in h.blocks
    ensures var r := MergePoint(h, p);
      && r in h.blocks && r <= p < MergedEnd(h, p)
      && (NextFree(h, p) ==> p < End(h, p) < MergedEnd(h, p))
      && forall q :: q in h.blocks && r <= q < MergedEnd(h, p) ==> q == r || q == p || q in Behind(h, p)
  {
    hide Indexed;
    if !h.blocks[p].prev {
      PrevFree(h, p);
    }
  }

  // ---- mm_free -------------------------------------------------------------------------------------

  /** mm_free, exactly: the block, together with the block behind it when that is free, becomes one free
      block; nothing else about the blocks changes.  The absorbed block leaves its list, and the freed one
      goes last on its own. */
  lemma FreedExactly(h: Heap, p: int)
    requires Quiescent(h) && p in h.req
    ensures var h' := Freed(h, p);
      && p in h.blocks
      && h'.blocks == (h.blocks - Behind(h, p))[p := Block(MergedEnd(h, p) - p, false, true)]
      && Relists(h, h', Behind(h, p), p)
      && h' == h.(blocks := h'.blocks, lists := h'.lists, req := h.req - {p})
  {
    hide Tiled, BitsSound, Indexed, Coalesced, Relists;
    assert IsAlloc(h, p);
    FreeMergesForward(h, p);
    BlockSize(h, p);
    var g := Released(h, p);
    CoalescedExactly(g, p);
    assert Behind(g, p) == Behind(h, p) && MergedEnd(g, p) == MergedEnd(h, p);
    assert Behind(h, p) + ({p} - {p}) == Behind(h, p);
    RelistsFrom(g, h, Freed(h, p), Behind(h, p), p);
    assert (g.blocks - {p} - Behind(h, p))[p := Block(MergedEnd(h, p) - p, false, true)]
        == (h.blocks - Behind(h, p))[p := Block(MergedEnd(h, p) - p, false, true)];
  }

  lemma RelistsFrom(g: Heap, h: Heap, h': Heap, x: set<int>, r: int)
    requires Relists(g, h', x, r) && h.lists == g.lists
    ensures Relists(h, h', x, r)
  {
  }

  lemma RelistsAfter(h: Heap, h1: Heap, h2: Heap, x: set<int>, y: set<int>, r: int)
    requires Delists(h, h1, x) && Relists(h1, h2, y, r)
    ensures Relists(h, h2, x + y, r)
  {
    forall j | 0 <= j < FREELIST_COUNT
      ensures h2.lists[j] == Minus(h.lists[j], x + y) + (if j == ListIndex(h2.blocks[r].size) then [r] else [])
    {
      MinusTwice(h.lists[j], x, y);
    }
  }

  // ---- allocate --------------------------------------------------------------------------------------

  /** allocate, exactly, when the rest is large enough: the front has the adjusted size, and the rest,
      together with the block behind it when that is free, is one free block, last on its list. */
  lemma AllocatedSplitExactly(h: Heap, p: int, adj: int)
    requires Sound(h, {}) && IsFree(h, p) && Fits(h, p, adj) && h.blocks[p].size - adj >= 16
    ensures var h' := Allocated(h, p, adj); var r := p + adj;
      && h'.blocks == (h.blocks - Behind(h, p))[p := Block(adj, true, h.blocks[p].prev)]
                                               [r := Block(MergedEnd(h, p) - r, false, true)]
      && Relists(h, h', {p} + Behind(h, p), r)
      && h' == h.(blocks := h'.blocks, lists := h'.lists)
  {
    hide Tiled, BitsSound, Indexed, Coalesced, Relists, Delists, Carved, Behind, MergedEnd, Fits, MergePoint;
    SplitPoint(h, p, adj);
    SeventeenLists(h, {});
    BlockSize(h, p);
    AllocateMergesForward(h, p, adj);
    CarvedIs(h, p, adj);
    var c, r := Carved(h, p, adj), p + adj;
    CoalescedExactly(c, r);
    SplitPieces(h, c, Coalesced(c, r), p, r, Behind(h, p), Block(adj, true, h.blocks[p].prev),
                Block(MergedEnd(h, p) - r, false, true));
  }

  /** Carving the block and coalescing the rest, put together. */
  lemma SplitPieces(h: Heap, c: Heap, h': Heap, p: int, r: int, x: set<int>, a: Block, b: Block)
    requires p != r && p !in x && r in c.blocks
    requires c == h.(blocks := c.blocks, lists := c.lists) && h' == c.(blocks := h'.blocks, lists := h'.lists)
    requires c.blocks == h.blocks[p := a][r := c.blocks[r]] && h'.blocks == (c.blocks - {r} - x)[r := b]
    requires Delists(h, c, {p}) && Relists(c, h', x + ({r} - {r}), r)
    ensures h'.blocks == (h.blocks - x)[p := a][r := b]
    ensures Relists(h, h', {p} + x, r)
    ensures h' == h.(blocks := h'.blocks, lists := h'.lists)
  {
    hide Delists, Relists;
    assert x + ({r} - {r}) == x;
    RelistsAfter(h, c, h', {p}, x, r);
    TwoEntries(h.blocks, x, p, r, a, c.blocks[r], b);
  }

  lemma TwoEntries(m: map<int, Block>, x: set<int>, p: int, r: int, a: Block, b: Block, c: Block)
    requires p != r && p !in x
    ensures (m[p := a][r := b] - {r} - x)[r := c] == (m - x)[p := a][r := c]
  {
  }

  lemma CarvedIs(h: Heap, p: int, adj: int)
    requires Sound(h, {}) && |h.lists| == FREELIST_COUNT && IsFree(h, p) && Fits(h, p, adj) && Splits(h, p, adj)
    requires p + adj !in h.blocks
    ensures var c := Carved(h, p, adj); var r := p + adj;
      && c == h.(blocks := c.blocks, lists := c.lists) && Delists(h, c, {p})
      && r in c.blocks && c.blocks[r].prev && p !in Behind(h, p) && r != p
      && c.blocks == h.blocks[p := Block(adj, true, h.blocks[p].prev)][r := c.blocks[r]]
      && Behind(c, r) == Behind(h, p) && MergedEnd(c, r) == MergedEnd(h, p)
  {
    BlockSize(h, p);
    FitsLeast(h, p, adj);
    hide Tiled, BitsSound, Indexed, Delists, Unlist, Fits;
    UnlistDelists(h, {}, p);
    UnlistOnly(h, p);
    DelistsLists(h, Unlist(h, p), Carved(h, p, adj), {p});
    SplitBehind(Unlist(h, p), p, adj);
    BehindOnly(h, Unlist(h, p), p);
    hide Behind, MergedEnd;
  }

  lemma SplitBehind(h: Heap, p: int, adj: int)
    requires IsFree(h, p) && 0 < adj < h.blocks[p].size && p + adj !in h.blocks
    ensures var c := Split(h, p, adj); var r := p + adj;
      && r in c.blocks && End(c, r) == End(h, p) && p !in Behind(h, p)
      && Behind(c, r) == Behind(h, p) && MergedEnd(c, r) == MergedEnd(h, p)
  {
  }

  lemma BehindOnly(h: Heap, h': Heap, p: int)
    requires h'.blocks == h.blocks && p in h.blocks
    ensures Behind(h', p) == Behind(h, p) && MergedEnd(h', p) == MergedEnd(h, p)
  {
  }

  lemma UnlistOnly(h: Heap, p: int)
    requires p in h.blocks && h.blocks[p].size >= 0 && |h.lists| == FREELIST_COUNT
    ensures Unlist(h, p) == h.(lists := Unlist(h, p).lists)
  {
  }

  /** allocate, exactly, when the rest is too small: the whole block is taken, and the bit behind it set. */
  lemma AllocatedWholeExactly(h: Heap, p: int, adj: int)
    requires Sound(h, {}) && IsFree(h, p) && Fits(h, p, adj) && h.blocks[p].size - adj < 16
    ensures var h' := Allocated(h, p, adj); var e := End(h, p);
      var taken := h.blocks[p := Block(h.blocks[p].size, true, h.blocks[p].prev)];
      && h'.blocks == (if e in h.blocks then taken[e := h.blocks[e].(prev := true)] else taken)
      && Delists(h, h', {p})
      && h' == h.(blocks := h'.blocks, lists := h'.lists, epi := h.epi || e == h.hi)
  {
    hide Tiled, BitsSound, Indexed, Delists, Unlist, Fits, Coalesced, Carved;
    BlockSize(h, p);
    AdjoinsAt(h, p);
    BreakIsNoBlock(h);
    UnlistDelists(h, {}, p);
    SeventeenLists(h, {});
    UnlistOnly(h, p);
    DelistsLists(h, Unlist(h, p), Allocated(h, p, adj), {p});
  }

  // ---- extend_heap -----------------------------------------------------------------------------------

  /** extend_heap, exactly: one free block up to the new break.  It starts at the old break, or, when the
      epilogue bit is clear, where the free block before the break starts, which it absorbs. */
  lemma ExtendedExactly(h: Heap, n: int)
    requires Sound(h, {}) && CanGrow(h, n)
    ensures var h' := Extended(h, n); var r := ExtensionPoint(h, n);
      && (if h.epi then r == h.hi else IsFree(h, r) && End(h, r) == h.hi)
      && var x := if h.epi then {} else {r};
         && h'.blocks == (h.blocks - x)[r := Block(h.hi + n - r, false, h.epi || h.blocks[r].prev)]
         && Relists(h, h', x, r)
         && h' == h.(blocks := h'.blocks, lists := h'.lists, hi := h.hi + n, epi := false)
  {
    hide Tiled, BitsSound, Indexed, Relists, Extended, ExtensionPoint;
    if h.epi {
      ExtendedAtBreak(h, n);
      assert h.blocks - {} == h.blocks;
    } else {
      ExtendedBackward(h, n, Extended(h, n), ExtensionPoint(h, n));
    }
  }

  lemma ExtendedAtBreak(h: Heap, n: int)
    requires Sound(h, {}) && CanGrow(h, n) && h.epi
    ensures var h' := Extended(h, n);
      && ExtensionPoint(h, n) == h.hi && h'.blocks == h.blocks[h.hi := Block(n, false, true)]
      && Relists(h, h', {}, h.hi)
      && h' == h.(blocks := h'.blocks, lists := h'.lists, hi := h.hi + n, epi := false)
  {
    GrownSound(h, n);
    BreakIsNoBlock(h);
    GrownNext(h, n);
    var g := Grown(h, n);
    MergesHere(g, h.hi);
    hide Tiled, BitsSound, Indexed, Coalesced, Relists, MergePoint;
    CoalescedExactly(g, h.hi);
    assert {} + ({h.hi} - {h.hi}) == {};
    OneEntry(h.blocks, h.hi, h.hi, g.blocks[h.hi], Block(n, false, true));
    RelistsFrom(g, h, Extended(h, n), {}, h.hi);
  }

  lemma ExtendedBackward(h: Heap, n: int, h': Heap, r: int)
    requires Sound(h, {}) && CanGrow(h, n) && !h.epi && h' == Extended(h, n) && r == ExtensionPoint(h, n)
    ensures IsFree(h, r) && End(h, r) == h.hi
    ensures h'.blocks == (h.blocks - {r})[r := Block(h.hi + n - r, false, h.blocks[r].prev)]
    ensures Relists(h, h', {r}, r)
    ensures h' == h.(blocks := h'.blocks, lists := h'.lists, hi := h.hi + n, epi := false)
  {
    hide Tiled, BitsSound, Indexed, Coalesced, Relists, MergePoint, Behind, MergedEnd;
    GrownSound(h, n);
    BreakIsNoBlock(h);
    GrownNext(h, n);
    ExtensionAtFree(h, n);
    var g := Grown(h, n);
    CoalescedExactly(g, h.hi);
    assert {} + ({r} - {h.hi}) == {r};
    OneEntry(h.blocks, h.hi, r, g.blocks[h.hi], Block(h.hi + n - r, false, h.blocks[r].prev));
    RelistsFrom(g, h, h', {r}, r);
  }

  lemma ExtensionAtFree(h: Heap, n: int)
    requires Sound(h, {}) && CanGrow(h, n) && !h.epi
    ensures var r := ExtensionPoint(h, n); IsFree(h, r) && End(h, r) == h.hi && r < h.hi
  {
    hide Tiled, BitsSound, Indexed;
    GrownSound(h, n);
    PrevFree(Grown(h, n), h.hi);
  }

  lemma OneEntry(m: map<int, Block>, e: int, r: int, a: Block, b: Block)
    requires e !in m
    ensures (m[e := a] - {e} - {})[r := b] == m[r := b] == (m - {r})[r := b]
    ensures m - {} == m
  {
  }

  lemma GrownNext(h: Heap, n: int)
    requires Tiled(h) && CanGrow(h, n)
    ensures Behind(Grown(h, n), h.hi) == {} && MergedEnd(Grown(h, n), h.hi) == h.hi + n
  {
  }

  // ---- mm_malloc -------------------------------------------------------------------------------------

  /** List `i` is the lowest, from the class of the size up, whose head fits. */
  ghost predicate LowestFit(h: Heap, adj: nat, i: int)
    requires |h.lists| == FREELIST_COUNT
  {
    && ListIndex(adj) <= i < FREELIST_COUNT && HeadFits(h, i, adj)
    && forall k :: ListIndex(adj) <= k < i ==> !HeadFits(h, k, adj)
  }

  ghost predicate NoFit(h: Heap, adj: nat)
    requires |h.lists| == FREELIST_COUNT
  {
    forall k :: ListIndex(adj) <= k < FREELIST_COUNT ==> !HeadFits(h, k, adj)
  }

  /** mm_malloc, exactly: it takes the head of the lowest list whose head fits, and the break stays.  When no
      head fits, it extends the heap by the larger of the adjusted size and the page, if there is room. */
  lemma MallocExactly(h: Heap, size: int)
    requires Quiescent(h) && 1 <= size <= MAX_REQUEST
    ensures |h.lists| == FREELIST_COUNT
    ensures var adj := AdjustByteSize(size); var n := Max(adj, h.page); var (h', p) := Malloc(h, size);
      && (forall i :: LowestFit(h, adj, i) ==>
            && p == h.lists[i][0] && IsFree(h, p) && Fits(h, p, adj)
            && h' == Allocated(h, p, adj).(req := h.req[p := size]) && h'.hi == h.hi)
      && (NoFit(h, adj) && h.hi + n > h.limit ==> p == 0 && h' == h)
      && (NoFit(h, adj) && h.hi + n <= h.limit ==>
            && CanGrow(h, n) && Sound(Extended(h, n), {}) && p == ExtensionPoint(h, n)
            && IsFree(Extended(h, n), p) && Fits(Extended(h, n), p, adj)
            && h' == Allocated(Extended(h, n), p, adj).(req := h.req[p := size]) && h'.hi == h.hi + n)
      && (NoFit(h, adj) || exists i :: LowestFit(h, adj, i))
  {
    SeventeenLists(h, {});
    var adj := AdjustByteSize(size);
    AdjustIsLeast(size);
    var p := FindFit(h, adj, ListIndex(adj));
    FindFitLowest(h, adj, ListIndex(adj));
    var n := Max(adj, h.page);
    PageFits(h, adj);
    hide Tiled, BitsSound, Indexed, AdjustByteSize, Allocated, Extended, ListIndex;
    if p != 0 {
      AllocatedBlocks(h, p, adj);
      OneLowest(h, adj, p);
    } else if h.hi + n <= h.limit {
      ExtendedSound(h, n);
      ExtendedBlocks(h, n);
      AllocatedBlocks(Extended(h, n), ExtensionPoint(h, n), adj);
    }
  }

  lemma OneLowest(h: Heap, adj: nat, p: int)
    requires |h.lists| == FREELIST_COUNT && p in h.blocks && h.blocks[p].size >= 0
    requires LowestFit(h, adj, ListIndex(h.blocks[p].size)) && h.lists[ListIndex(h.blocks[p].size)][0] == p
    ensures !NoFit(h, adj) && forall i :: LowestFit(h, adj, i) ==> h.lists[i] != [] && h.lists[i][0] == p
  {
    var j := ListIndex(h.blocks[p].size);
    hide ListIndex;
    forall i | LowestFit(h, adj, i)
      ensures i == j
    {
      assert HeadFits(h, i, adj) && HeadFits(h, j, adj);
    }
  }

  /** mm_realloc is mm_malloc and then mm_free of the old pointer. */
  lemma ReallocExactly(h: Heap, p: int, size: int)
    requires Quiescent(h) && p in h.req && 0 <= size <= MAX_REQUEST
    ensures Quiescent(Malloc(h, size).0)
    ensures var (h1, r) := Malloc(h, size);
      if r == 0 then Realloc(h, p, size) == (h, 0)
      else IsAlloc(h1, p) && Realloc(h, p, size) == (Freed(h1, p), r)
  {
    hide Sound, AllBitsSet, Malloc, Freed;
    MallocKeeps(h, size);
    var (h1, r) := Malloc(h, size);
    if r != 0 {
      assert p in h1.req;
    }
  }

  // ---- mm_init ---------------------------------------------------------------------------------------

  /** mm_init leaves one free block, alone on the list of its class, and a clear bit in the epilogue. */
  lemma InitExactly(lo: int, limit: int, page: nat)
    ensures var h := InitHeap(lo, limit, page);
      && h.lo == lo && h.hi == lo + page && h.limit == limit && h.page == page && !h.epi && h.req == map[]
      && h.blocks == map[lo := Block(page, false, true)] && |h.lists| == FREELIST_COUNT
      && forall j :: 0 <= j < FREELIST_COUNT ==> h.lists[j] == if j == ListIndex(page) then [lo] else []
  {
  }

  /** The clear bit matters: a first request for more than the page gets the start of the heap, since the
      extension absorbs the first block. */
  lemma InitServesLarge(lo: int, limit: int, page: int, size: int)
    requires CanInit(lo, limit, page) && 1 <= size <= MAX_REQUEST
    requires AdjustByteSize(size) > page && lo + page + AdjustByteSize(size) <= limit
    ensures Quiescent(InitHeap(lo, limit, page))
    ensures Malloc(InitHeap(lo, limit, page), size).1 == lo
  {
    InitQuiescent(lo, limit, page);
    InitExactly(lo, limit, page);
    hide Quiescent, InitHeap, CanInit, AdjustByteSize, ListIndex, Malloc;
    LargeFromOne(InitHeap(lo, limit, page), size);
  }

  /** The same from any heap whose only block is free and before a clear epilogue bit. */
  lemma LargeFromOne(h: Heap, size: int)
    requires Quiescent(h) && 1 <= size <= MAX_REQUEST && !h.epi && h.blocks.Keys == {h.lo}
    requires AdjustByteSize(size) > h.blocks[h.lo].size && AdjustByteSize(size) > h.page
    requires h.hi + AdjustByteSize(size) <= h.limit
    ensures Malloc(h, size).1 == h.lo
  {
    hide Quiescent, AdjustByteSize, ListIndex, Malloc, Allocated;
    var adj := AdjustByteSize(size);
    SeventeenIn(h);
    assert NoFit(h, adj);
    hide NoFit;
    MallocExactly(h, size);
    ExtendsFirst(h, adj);
  }

  lemma SeventeenIn(h: Heap)
    requires Quiescent(h)
    ensures |h.lists| == FREELIST_COUNT
  {
  }

  lemma ExtendsFirst(h: Heap, n: int)
    requires Quiescent(h) && CanGrow(h, n) && !h.epi && h.blocks.Keys == {h.lo}
    ensures ExtensionPoint(h, n) == h.lo
  {
    ExtendedExactly(h, n);
  }
}
