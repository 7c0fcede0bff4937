/** The internal steps of mm.c between two represented heaps: which writes carry the memory of one
    heap value to the memory of the next, and that they leave the payloads alone. */
module Steps {
  import opened Words
  import opened SizeClass
  import opened HeapSpec
  import opened HeapOps
  import opened Layout

  lemma KeptBlocks(m: Mem, m': Mem, h: Heap, h': Heap)
    requires Kept(m, m', h) && h'.blocks == h.blocks
    ensures Kept(m, m', h')
  {
    forall p | IsAlloc(h', p)
      ensures SameWords(m, m', p, End(h', p) - 4)
    {
      assert IsAlloc(h, p);
    }
  }

  ghost predicate SameFrame(h: Heap, h': Heap) {
    h'.lo == h.lo && h'.hi == h.hi && h'.limit == h.limit && h'.page == h.page && h'.epi == h.epi
  }

  /** The sizes of a block and of its free neighbour add up to a size that fits a header word. */
  lemma NextFits(h: Heap, p: int)
    requires Tiled(h) && p in h.blocks && NextFree(h, p)
    ensures var size := h.blocks[p].size + h.blocks[End(h, p)].size;
      && p != End(h, p) && 0 <= h.blocks[End(h, p)].size
      && size % 8 == 0 && 32 <= size && size + 3 < WORD_SPAN
      && GetSize(size + PREVALLOC) == size && GetSize(size) == size
  {
    assert Placed(h, p) && Placed(h, End(h, p));
    var size := h.blocks[p].size + h.blocks[End(h, p)].size;
    TagParts(size, PREVALLOC);
    TagParts(size, 0);
  }

  lemma NextMerged(h: Heap, p: int)
    requires Sound(h, {p}) && p in h.blocks && NextFree(h, p) && h.blocks[End(h, p)].size >= 0
    ensures Sound(Unlist(h, End(h, p)), {p, End(h, p)})
    ensures Sound(MergeNext(h, p), {p}) && IsFree(MergeNext(h, p), p)
    ensures OthersSame(Unlist(h, End(h, p)), MergeNext(h, p), p) && SameFrame(h, MergeNext(h, p))
    ensures MergeNext(h, p).lists == Unlist(h, End(h, p)).lists
    ensures MergeNext(h, p).blocks[p] == h.blocks[p].(size := h.blocks[p].size + h.blocks[End(h, p)].size)
    ensures End(MergeNext(h, p), p) == End(h, End(h, p))
  {
    hide Tiled, BitsSound, Indexed;
    SeventeenLists(h, {p});
    StartsFree(h, p);
    NextUnlisted(h, p);
    UnlistSound(h, {p}, End(h, p));
    assert {p} + {End(h, p)} == {p, End(h, p)};
    MergeNextSound(h, {p}, p);
  }

  /** Case 2 of coalesce: after the next block has left its list, writing the merged size into the
      header and into the footer of the next block absorbs it. */
  lemma NextStep(m: Mem, m': Mem, f: seq<int>, h: Heap, p: int, w: Word)
    requires Sound(h, {p}) && p in h.blocks && NextFree(h, p) && h.blocks[End(h, p)].size >= 0
    requires Rep(m, f, Unlist(h, End(h, p)))
    requires w == h.blocks[p].size + h.blocks[End(h, p)].size + Flags(false, h.blocks[p].prev)
    requires Wrote(m, m', p - 4, End(h, End(h, p)) - 8, w)
    ensures Rep(m', f, MergeNext(h, p)) && Sound(MergeNext(h, p), {p}) && SameFrame(h, MergeNext(h, p))
    ensures Kept(m, m', h) && IsFree(MergeNext(h, p), p)
    ensures MergeNext(h, p).blocks[p].size == h.blocks[p].size + h.blocks[End(h, p)].size
  {
    hide Tiled, BitsSound, Indexed, Tags, Chains, Wrote, Kept, MergeNext, OthersSame;
    StartsFree(h, p);
    var n := End(h, p);
    var h1, h2 := Unlist(h, n), MergeNext(h, p);
    NextMerged(h, p);
    assert w == Header(h2.blocks[p]) && End(h2, p) == End(h1, n);
    SpanRep(m, m', f, h1, h1, {p, n}, h2, p, n, w);
    KeptBlocks(m, m', h1, h);
  }

  lemma PrevMerged(h: Heap, p: int)
    requires Sound(h, {p}) && p in h.blocks && !h.blocks[p].prev
    ensures var q := MergePoint(h, p);
      && IsFree(h, q) && q < p && h.blocks[q].size >= 16 && End(h, q) == p && |h.lists| == FREELIST_COUNT
      && Sound(Unlist(h, q), {p, q}) && Sound(MergePrev(h, p), {q}) && IsFree(MergePrev(h, p), q)
      && OthersSame(Unlist(h, q), MergePrev(h, p), q) && SameFrame(h, MergePrev(h, p))
      && MergePrev(h, p).lists == Unlist(h, q).lists
      && MergePrev(h, p).blocks[q] == h.blocks[q].(size := h.blocks[q].size + h.blocks[p].size)
      && End(MergePrev(h, p), q) == End(h, p)
  {
    hide Tiled, BitsSound, Indexed;
    StartsFree(h, p);
    var q := MergePoint(h, p);
    PrevFree(h, p);
    UnlistSound(h, {p}, q);
    assert {p} + {q} == {p, q};
    MergePrevSound(h, {p}, p);
    assert {p} - {p} + {q} == {q};
  }

  lemma PrevFree(h: Heap, p: int)
    requires Tiled(h) && BitsSound(h) && p in h.blocks && !h.blocks[p].prev
    ensures var q := MergePoint(h, p); IsFree(h, q) && End(h, q) == p && q < p && h.blocks[q].size >= 16 && q !in {p}
  {
  }

  /** Case 3 of coalesce: after the previous block has left its list, writing the merged size into
      its header and into the footer of the block absorbs the block. */
  lemma PrevStep(m: Mem, m': Mem, f: seq<int>, h: Heap, p: int, q: int, w: Word)
    requires Sound(h, {p}) && p in h.blocks && !h.blocks[p].prev && q == MergePoint(h, p)
    requires q in h.blocks && h.blocks[q].size >= 0 && |h.lists| == FREELIST_COUNT
    requires Rep(m, f, Unlist(h, q))
    requires w == h.blocks[q].size + h.blocks[p].size + Flags(false, h.blocks[q].prev)
    requires Wrote(m, m', q - 4, End(h, p) - 8, w)
    ensures Rep(m', f, MergePrev(h, p)) && Sound(MergePrev(h, p), {q}) && SameFrame(h, MergePrev(h, p))
    ensures Kept(m, m', h) && IsFree(MergePrev(h, p), q)
    ensures MergePrev(h, p).blocks[q].size == h.blocks[q].size + h.blocks[p].size
  {
    hide Tiled, BitsSound, Indexed, Tags, Chains, Wrote, Kept, MergePrev, OthersSame;
    var h1, h2 := Unlist(h, q), MergePrev(h, p);
    PrevMerged(h, p);
    assert w == Header(h2.blocks[q]) && End(h2, q) == End(h1, p);
    SpanRep(m, m', f, h1, h1, {p, q}, h2, q, p, w);
    KeptBlocks(m, m', h1, h);
  }

  /** The two neighbours off their lists, in the order of the code. */
  ghost function BothUnlisted(h: Heap, n: int, q: int): Heap
    requires n in h.blocks && q in h.blocks && h.blocks[n].size >= 0 && h.blocks[q].size >= 0
    requires |h.lists| == FREELIST_COUNT
  {
    Unlist(Unlist(h, n), q)
  }

  lemma BothMerged(h: Heap, p: int, n: int, q: int)
    requires Sound(h, {p}) && p in h.blocks && !h.blocks[p].prev && NextFree(h, p)
    requires n == End(h, p) && q == MergePoint(h, p)
    requires q in h.blocks && h.blocks[q].size >= 0 && h.blocks[n].size >= 0 && |h.lists| == FREELIST_COUNT
    ensures Tiled(MergeNext(h, p)) && BitsSound(MergeNext(h, p)) && p in MergeNext(h, p).blocks
    ensures |MergeNext(h, p).lists| == FREELIST_COUNT
    ensures var h2 := MergePrev(MergeNext(h, p), p);
      && Sound(h2, {q}) && IsFree(h2, q) && SameFrame(h, h2)
      && h2.lists == BothUnlisted(h, n, q).lists
      && OthersSame(h, h2, q)
      && h2.blocks[q] == h.blocks[q].(size := h.blocks[q].size + h.blocks[p].size + h.blocks[n].size)
      && End(h2, q) == End(h, n)
  {
    hide Tiled, BitsSound, Indexed;
    StartsFree(h, p);
    NextMerged(h, p);
    CoalesceSteps(h, p);
    var h1 := MergeNext(h, p);
    PrevMerged(h1, p);
    PrevFree(h, p);
  }

  lemma BothUnlistedSound(h: Heap, p: int, n: int, q: int)
    requires Sound(h, {p}) && IsFree(h, n) && IsFree(h, q) && n != p && q != p && n != q
    requires h.blocks[q].size >= 0 && h.blocks[n].size >= 0 && |h.lists| == FREELIST_COUNT
    ensures Sound(Unlist(h, n), {p, n}) && Sound(BothUnlisted(h, n, q), {p, n, q})
  {
    hide Tiled, BitsSound, Indexed;
    UnlistSound(h, {p}, n);
    assert {p} + {n} == {p, n};
    UnlistSound(Unlist(h, n), {p, n}, q);
    assert {p, n} + {q} == {p, n, q};
  }

  /** Case 4 of coalesce: with both neighbours off their lists, writing the merged size into the
      header of the previous block and into the footer of the next makes one block of the three. */
  lemma BothStep(m: Mem, m': Mem, f: seq<int>, h: Heap, p: int, n: int, q: int, w: Word)
    requires Sound(h, {p}) && p in h.blocks && !h.blocks[p].prev && NextFree(h, p)
    requires n == End(h, p) && q == MergePoint(h, p) && q < p < n
    requires IsFree(h, q) && h.blocks[q].size >= 0 && h.blocks[n].size >= 0 && |h.lists| == FREELIST_COUNT
    requires Rep(m, f, BothUnlisted(h, n, q))
    requires w == h.blocks[q].size + h.blocks[p].size + h.blocks[n].size + Flags(false, h.blocks[q].prev)
    requires Wrote(m, m', q - 4, End(h, n) - 8, w)
    ensures Tiled(MergeNext(h, p)) && BitsSound(MergeNext(h, p)) && p in MergeNext(h, p).blocks
    ensures |MergeNext(h, p).lists| == FREELIST_COUNT
    ensures var h2 := MergePrev(MergeNext(h, p), p);
      && Rep(m', f, h2) && Sound(h2, {q}) && SameFrame(h, h2) && Kept(m, m', h) && IsFree(h2, q)
      && h2.blocks[q].size == h.blocks[q].size + h.blocks[p].size + h.blocks[n].size
  {
    hide Tiled, BitsSound, Indexed, Tags, Chains, Wrote, Kept, MergePrev, MergeNext;
    StartsFree(h, p);
    BothMerged(h, p, n, q);
    BothUnlistedSound(h, p, n, q);
    var h1, h2 := BothUnlisted(h, n, q), MergePrev(MergeNext(h, p), p);
    assert w == Header(h2.blocks[q]) && End(h2, q) == End(h1, n);
    SpanRep(m, m', f, h1, h1, {p, n, q}, h2, q, n, w);
    KeptBlocks(m, m', h1, h);
  }

  // ---- allocate --------------------------------------------------------------------------------

  lemma SplitTags(m: Mem, m1: Mem, m2: Mem, h: Heap, p: int, adj: int, w1: Word, w2: Word)
    requires Tags(m, h) && IsFree(h, p) && Fits(h, p, adj) && Splits(h, p, adj)
    requires Tiled(Split(h, p, adj)) && p + adj !in h.blocks
    requires w1 == adj + Flags(true, h.blocks[p].prev) && w2 == h.blocks[p].size - adj + PREVALLOC
    requires Wrote(m, m1, p - 4, p + adj - 8, w1) && Wrote(m1, m2, p + adj - 4, End(h, p) - 8, w2)
    ensures Tags(m2, Split(h, p, adj))
  {
    var h', r := Split(h, p, adj), p + adj;
    SizeFits(h', r);
    SizeFits(h', p);
    SplitEnds(m, m2, h, p, adj);
    assert GetSize(w2) == h'.blocks[r].size;
    forall q | q in h'.blocks
      ensures TagAt(m2, h', q)
    {
      if q != p && q != r {
        SplitTagAt(m, m2, h, p, adj, q);
      }
    }
  }

  /** The words that a split writes. */
  predicate SplitWord(h: Heap, p: int, adj: int, a: int)
    requires p in h.blocks
  {
    a == p - 4 || a == p + adj - 8 || a == p + adj - 4 || a == End(h, p) - 8
  }

  lemma SplitEnds(m: Mem, m2: Mem, h: Heap, p: int, adj: int)
    requires Tags(m, h) && p in h.blocks && Fits(h, p, adj) && Splits(h, p, adj) && Tiled(Split(h, p, adj))
    requires forall a :: SplitWord(h, p, adj, a) || Rd(m2, a) == Rd(m, a)
    ensures Ends(m2, Split(h, p, adj))
  {
    var h' := Split(h, p, adj);
    assert Placed(h', p) && Placed(h', p + adj);
    hide Tiled;
    EndsOf(m, h);
  }

  /** The tags of every other block are not written. */
  lemma SplitTagAt(m: Mem, m2: Mem, h: Heap, p: int, adj: int, q: int)
    requires Tags(m, h) && p in h.blocks && Fits(h, p, adj) && Splits(h, p, adj) && Tiled(Split(h, p, adj))
    requires forall a :: SplitWord(h, p, adj, a) || Rd(m2, a) == Rd(m, a)
    requires q in h.blocks && q != p && q != p + adj
    ensures TagAt(m2, Split(h, p, adj), q)
  {
    hide Tiled, Tags, Fits, GetSize;
    var h' := Split(h, p, adj);
    TagOf(m, h, q);
    FitsLeast(h, p, adj);
    BlocksApart(h', p, q);
    BlocksApart(h', p + adj, q);
    BlockSize(h', p);
    BlockSize(h', p + adj);
    BlockSize(h', q);
  }

  /** allocate, when it splits: four tag writes inside the unlisted block. */
  lemma SplitStep(m: Mem, m1: Mem, m2: Mem, f: seq<int>, h: Heap, p: int, adj: int, w1: Word, w2: Word)
    requires Sound(h, {p}) && Rep(m, f, h) && IsFree(h, p) && Fits(h, p, adj) && Splits(h, p, adj)
    requires w1 == adj + Flags(true, h.blocks[p].prev) && w2 == h.blocks[p].size - adj + PREVALLOC
    requires Wrote(m, m1, p - 4, p + adj - 8, w1) && Wrote(m1, m2, p + adj - 4, End(h, p) - 8, w2)
    ensures Rep(m2, f, Split(h, p, adj)) && Kept(m, m2, h)
    ensures Rd(m2, p) == Rd(m, p) && Rd(m2, p + 4) == Rd(m, p + 4)
  {
    hide Tiled, BitsSound, Indexed, Tags, Chains, Clear, Kept;
    SplitTiled(h, p, adj);
    SplitTags(m, m1, m2, h, p, adj, w1, w2);
    ClearInside(h, {p}, p, p - 4);
    ClearInside(h, {p}, p, p + adj - 8);
    ClearInside(h, {p}, p, p + adj - 4);
    ClearInside(h, {p}, p, End(h, p) - 8);
    ClearWrite(m, m1, f, h, {p}, p - 4, p + adj - 8, w1);
    ClearWrite(m1, m2, f, h, {p}, p + adj - 4, End(h, p) - 8, w2);
    KeptTrans(m, m1, m2, h);
  }

  lemma WholeTags(m: Mem, m1: Mem, m2: Mem, h: Heap, p: int, w1: Word, w2: Word)
    requires Tags(m, h) && Tiled(h) && IsFree(h, p) && Tiled(TakeWhole(h, p))
    requires w1 == h.blocks[p].size + Flags(true, h.blocks[p].prev) && w2 == OrPrevAlloc(Rd(m1, End(h, p) - 4))
    requires Wrote(m, m1, p - 4, End(h, p) - 8, w1) && Wrote(m1, m2, End(h, p) - 4, End(h, p) - 4, w2)
    ensures Tags(m2, TakeWhole(h, p))
  {
    hide Tiled, BitsSound, Tags;
    var h' := TakeWhole(h, p);
    var e := End(h, p);
    BlockSize(h, p);
    LoFirst(h, p);
    assert Rd(m1, e - 4) == Rd(m, e - 4);
    NextHeader(m, h, e, p);
    AdjoinsAt(h, p);
    BreakIsNoBlock(h);
    EndsOf(m, h);
    forall q | q in h'.blocks
      ensures TagAt(m2, h', q)
    {
      WholeTagAt(m, m2, h, p, q);
    }
    TagsAre(m2, h');
  }

  lemma TagOf(m: Mem, h: Heap, p: int)
    requires Tags(m, h) && p in h.blocks
    ensures TagAt(m, h, p)
  {
  }

  lemma EndsOf(m: Mem, h: Heap)
    requires Tags(m, h)
    ensures Ends(m, h)
  {
  }

  lemma TagsAre(m: Mem, h: Heap)
    requires Ends(m, h) && forall p :: p in h.blocks ==> TagAt(m, h, p)
    ensures Tags(m, h)
  {
  }

  lemma AdjoinsAt(h: Heap, p: int)
    requires Tiled(h) && p in h.blocks
    ensures End(h, p) == h.hi || End(h, p) in h.blocks
  {
    assert Adjoins(h, p);
  }

  lemma LoFirst(h: Heap, p: int)
    requires Tiled(h) && p in h.blocks
    ensures h.lo <= p
  {
  }

  lemma WholeTagAt(m: Mem, m2: Mem, h: Heap, p: int, q: int)
    requires Tags(m, h) && Tiled(h) && IsFree(h, p) && q in h.blocks && (End(h, p) == h.hi || End(h, p) in h.blocks)
    requires Rd(m2, p - 4) == h.blocks[p].size + Flags(true, h.blocks[p].prev)
    requires End(h, p) in h.blocks ==> Rd(m2, End(h, p) - 4) == Header(h.blocks[End(h, p)].(prev := true))
    requires forall a :: Rd(m2, a) == Rd(m, a) || a == p - 4 || a == End(h, p) - 8 || a == End(h, p) - 4
    ensures q in TakeWhole(h, p).blocks && TagAt(m2, TakeWhole(h, p), q)
  {
    assert Placed(h, q) && Placed(h, p) && TagAt(m, h, q);
  }

  /** `GETW(hdr) | PREVALLOC` is the header with its PREVALLOC bit set. */
  lemma NextHeader(m: Mem, h: Heap, e: int, p: int)
    requires Tags(m, h) && Tiled(h) && p in h.blocks && e == End(h, p)
    ensures OrPrevAlloc(Rd(m, e - 4)) ==
            if e in h.blocks then Header(h.blocks[e].(prev := true)) else EPILOGUE + Flags(true, true)
  {
    assert Adjoins(h, p);
    if e in h.blocks {
      ReadTags(m, h, e);
      assert TagAt(m, h, e);
    } else {
      TagParts(EPILOGUE, Flags(true, h.epi));
    }
  }

  /** allocate, when it takes the block whole: its tags, and the bit in the next header. */
  lemma WholeStep(m: Mem, m1: Mem, m2: Mem, f: seq<int>, h: Heap, p: int, w1: Word, w2: Word)
    requires Sound(h, {p}) && Rep(m, f, h) && IsFree(h, p)
    requires w1 == h.blocks[p].size + Flags(true, h.blocks[p].prev) && w2 == OrPrevAlloc(Rd(m1, End(h, p) - 4))
    requires Wrote(m, m1, p - 4, End(h, p) - 8, w1) && Wrote(m1, m2, End(h, p) - 4, End(h, p) - 4, w2)
    ensures Rep(m2, f, TakeWhole(h, p)) && Kept(m, m2, h)
    ensures Rd(m2, p) == Rd(m, p) && Rd(m2, p + 4) == Rd(m, p + 4)
  {
    hide Tiled, BitsSound, Indexed, Tags, Chains, Clear, Kept;
    BlockSize(h, p);
    TakeWholeTiled(h, p);
    AdjoinsAt(h, p);
    WholeTags(m, m1, m2, h, p, w1, w2);
    ClearInside(h, {p}, p, p - 4);
    ClearInside(h, {p}, p, End(h, p) - 8);
    ClearHeader(h, {p}, End(h, p));
    ClearWrite(m, m1, f, h, {p}, p - 4, End(h, p) - 8, w1);
    ClearWrite(m1, m2, f, h, {p}, End(h, p) - 4, End(h, p) - 4, w2);
    KeptTrans(m, m1, m2, h);
  }

  // ---- the second remove_from_list of mm_malloc -----------------------------------------------------

  /** Address `n` is deep inside a free block: neither its links nor its footer. */
  ghost predicate Buried(h: Heap, n: int) {
    exists r :: IsFree(h, r) && r + 16 <= n && n + 16 <= End(h, r)
  }

  /** The list successor of the allocated block is now the head of that list, or has been absorbed
      into the rest that allocate gave back. */
  ghost predicate HeadOrBuried(h: Heap, i: int, n: int)
    requires 0 <= i < |h.lists|
  {
    (h.lists[i] != [] && h.lists[i][0] == n) || Buried(h, n)
  }

  lemma WithoutHead(l: seq<int>, p: int)
    requires l != [] && l[0] != p
    ensures Without(l, p) != [] && Without(l, p)[0] == l[0]
  {
  }

  /** What coalescing the rest does to the head `n` of list `i`. */
  lemma RestKeepsHead(c: Heap, r: int, i: int, n: int)
    requires Sound(c, {r}) && r in c.blocks && c.blocks[r].prev && 0 <= i < FREELIST_COUNT
    requires c.lists[i] != [] && c.lists[i][0] == n && |Coalesced(c, r).lists| == FREELIST_COUNT
    ensures HeadOrBuried(Coalesced(c, r), i, n)
  {
    hide Tiled, BitsSound, Indexed;
    CoalesceSteps(c, r);
    StartsFree(c, r);
    NextUnlisted(c, r);
    MergeNextSound(c, {r}, r);
    if NextFree(c, r) {
      var t := End(c, r);
      BlockSize(c, r);
      BlockSize(c, t);
      if t == n {
        assert IsFree(Coalesced(c, r), r) && End(Coalesced(c, r), r) == End(c, n);
      } else {
        WithoutHead(c.lists[i], t);
      }
    }
  }

  lemma StaleSuccessor(h: Heap, p: int, adj: int, i: int)
    requires Sound(h, {}) && IsFree(h, p) && Fits(h, p, adj)
    requires i == ListIndex(h.blocks[p].size) && |h.lists[i]| > 1 && h.lists[i][0] == p
    ensures |Allocated(h, p, adj).lists| == FREELIST_COUNT
    ensures HeadOrBuried(Allocated(h, p, adj), i, h.lists[i][1])
  {
    hide Tiled, BitsSound, Indexed, Coalesced;
    AllocateSteps(h, p, adj);
    AllocatedSound(h, p, adj);
    SeventeenLists(h, {});
    assert Without(h.lists[i], p) == h.lists[i][1..];
    SeventeenLists(Allocated(h, p, adj), {});
    if Splits(h, p, adj) {
      RestKeepsHead(Carved(h, p, adj), p + adj, i, h.lists[i][1]);
    }
  }

  lemma SameRead(m: Mem, m': Mem, f: seq<int>, h: Heap)
    requires Rep(m, f, h) && forall a :: Rd(m', a) == Rd(m, a)
    ensures Rep(m', f, h) && Kept(m, m', h)
  {
    forall p | p in h.blocks
      ensures TagAt(m', h, p)
    {
      assert TagAt(m, h, p);
    }
    forall i | 0 <= i < FREELIST_COUNT
      ensures Chain(m', f[i], h.lists[i])
    {
      ChainFrame(m, m', f[i], h.lists[i]);
    }
  }

  lemma BuriedAt(m: Mem, m': Mem, h: Heap, n: int, r: int, p: int)
    requires Tiled(h) && Tags(m, h) && IsFree(h, r) && r + 16 <= n && n + 16 <= End(h, r)
    requires Wrote(m, m', n + 4, n + 4, 0) && p in h.blocks
    ensures TagAt(m', h, p) && ClearOf(h, p, n + 4)
  {
  }

  lemma BuriedWrite(m: Mem, m': Mem, f: seq<int>, h: Heap, n: int)
    requires Sound(h, {}) && Rep(m, f, h) && Buried(h, n) && Wrote(m, m', n + 4, n + 4, 0)
    ensures Rep(m', f, h) && Kept(m, m', h)
  {
    var r :| IsFree(h, r) && r + 16 <= n && n + 16 <= End(h, r);
    forall p | p in h.blocks
      ensures TagAt(m', h, p) && ClearOf(h, p, n + 4)
    {
      BuriedAt(m, m', h, n, r, p);
    }
    assert Placed(h, r);
    hide Tiled, BitsSound, Indexed, Chains, Kept;
    ClearWrite(m, m', f, h, {}, n + 4, n + 4, 0);
  }

  lemma AllocNotHead(m: Mem, f: seq<int>, h: Heap, p: int, i: int)
    requires Indexed(h, {}) && Chains(m, f, h.lists) && IsAlloc(h, p) && p != 0 && 0 <= i < FREELIST_COUNT
    ensures f[i] != p
  {
  }

  lemma HeadHasNoPrev(m: Mem, f: seq<int>, h: Heap, i: int)
    requires Chains(m, f, h.lists) && 0 <= i < FREELIST_COUNT && h.lists[i] != []
    ensures Rd(m, h.lists[i][0] + 4) == 0 && f[i] == h.lists[i][0]
    ensures Rd(m, h.lists[i][0]) == (if |h.lists[i]| > 1 then h.lists[i][1] else 0)
  {
    assert Chain(m, f[i], h.lists[i]) && NodeAt(m, h.lists[i], 0);
  }

  /** remove_from_list, run on a block already off its list through the links it still holds,
      changes no list head, no list, no tag and no payload: the one word it may change lies unused
      inside a free block. */
  lemma StaleStep(m: Mem, f: seq<int>, h: Heap, p: int, i: int)
    requires Sound(h, {}) && Rep(m, f, h) && IsAlloc(h, p) && p != 0 && 0 <= i < FREELIST_COUNT
    requires Rd(m, p + 4) == 0 && Rd(m, p) != p
    requires Rd(m, p) != 0 ==> HeadOrBuried(h, i, Rd(m, p))
    ensures var m' := Unlinked(m, p);
      && UnlinkedHeads(m', f, i, p) == f
      && Rep(m', f, h) && Kept(m, m', h)
      && forall a :: Rd(m', a) == Rd(m, a) || (a == Rd(m, p) + 4 && Buried(h, Rd(m, p)))
  {
    var n: int := Rd(m, p);
    var m' := Unlinked(m, p);
    AllocNotHead(m, f, h, p, i);
    assert forall a :: Rd(m', a) == if n != 0 && a == n + 4 then 0 else Rd(m, a);
    hide Tiled, BitsSound, Tags, Unlinked, Kept;
    if n != 0 && Buried(h, n) {
      BuriedWrite(m, m', f, h, n);
    } else {
      if n != 0 {
        HeadHasNoPrev(m, f, h, i);
      }
      SameRead(m, m', f, h);
    }
  }

  // ---- extend_heap and free_block -------------------------------------------------------------------

  lemma GrowTags(m: Mem, m1: Mem, m2: Mem, h: Heap, n: int, w: Word)
    requires Tiled(h) && Tags(m, h) && CanGrow(h, n) && w == n + Flags(false, h.epi)
    requires Wrote(m, m1, h.hi - 4, h.hi + n - 8, w)
    requires Wrote(m1, m2, h.hi + n - 4, h.hi + n - 4, EPILOGUE + THISALLOC)
    ensures Tags(m2, Grown(h, n))
  {
    TagParts(n, Flags(false, h.epi));
    EndsOf(m, h);
    GrowOutside(h, n);
    BreakIsNoBlock(h);
    hide Tiled;
    forall p | p in h.blocks
      ensures TagAt(m2, Grown(h, n), p)
    {
      GrowTagAt(m, m2, h, n, p);
    }
  }

  lemma GrowOutside(h: Heap, n: int)
    requires Tiled(h) && CanGrow(h, n)
    ensures h.lo + 16 <= h.hi && n + 3 < WORD_SPAN && 16 <= n
  {
    assert Placed(h, h.lo);
  }

  /** The tags of a block lie below the words that extension writes. */
  lemma GrowTagAt(m: Mem, m2: Mem, h: Heap, n: int, p: int)
    requires Tiled(h) && Tags(m, h) && CanGrow(h, n) && p in h.blocks
    requires forall a :: a < h.hi - 4 ==> Rd(m2, a) == Rd(m, a)
    ensures p in Grown(h, n).blocks && TagAt(m2, Grown(h, n), p)
  {
    assert TagAt(m, h, p) && Placed(h, p);
    hide Tiled, Tags;
  }

  /** extend_heap: the old epilogue becomes the header of the new block, behind which stands a new
      epilogue. */
  lemma GrowStep(m: Mem, m1: Mem, m2: Mem, f: seq<int>, h: Heap, n: int, w: Word)
    requires Sound(h, {}) && Rep(m, f, h) && CanGrow(h, n) && w == n + Flags(false, h.epi)
    requires Wrote(m, m1, h.hi - 4, h.hi + n - 8, w)
    requires Wrote(m1, m2, h.hi + n - 4, h.hi + n - 4, EPILOGUE + THISALLOC)
    ensures Rep(m2, f, Grown(h, n)) && Kept(m, m2, h)
  {
    hide Tiled, BitsSound, Indexed, Tags, Chains, Clear, Kept;
    GrowTags(m, m1, m2, h, n, w);
    ClearHeader(h, {}, h.hi);
    ClearHeader(h, {}, h.hi + n - 4);
    ClearHeader(h, {}, h.hi + n);
    ClearWrite(m, m1, f, h, {}, h.hi - 4, h.hi + n - 8, w);
    ClearWrite(m1, m2, f, h, {}, h.hi + n - 4, h.hi + n - 4, EPILOGUE + THISALLOC);
    KeptTrans(m, m1, m2, h);
  }

  /** free_block: the tags of an allocated block are rewritten without THISALLOC. */
  lemma FreeStep(m: Mem, m': Mem, f: seq<int>, h: Heap, p: int, w: Word)
    requires Sound(h, {}) && Rep(m, f, h) && IsAlloc(h, p)
    requires w == h.blocks[p].size + Flags(false, h.blocks[p].prev) && Wrote(m, m', p - 4, End(h, p) - 8, w)
    ensures Sound(Released(h, p), {p}) && Rep(m', f, Released(h, p)) && Kept(m, m', Released(h, p))
  {
    hide Tiled, BitsSound, Indexed, Tags, Chains, Wrote, Kept;
    ReleasedSound(h, p);
    SpanRep(m, m', f, h, Released(h, p), {p}, Released(h, p), p, p, w);
  }

  // ---- contents of live allocations ------------------------------------------------------------------

  /** The bytes of every live allocation. */
  ghost function LiveContents(m: Mem, h: Heap): map<int, seq<int>>
    requires Live(h)
  {
    map p | p in h.req :: Bytes(m, p, h.req[p])
  }

  /** A request fits the payload of its block. */
  lemma RequestFits(h: Heap, p: int)
    requires Quiescent(h) && p in h.req
    ensures p in h.blocks && 1 <= h.req[p] && p + h.req[p] <= End(h, p) - 4 && p % 8 == 0
    ensures h.lo <= p && End(h, p) <= h.hi
  {
    assert IsAlloc(h, p) && Serves(h.blocks[p], h.req[p]) && Placed(h, p);
  }

  lemma SameBytes(m: Mem, m': Mem, p: int, e: int, n: nat)
    requires SameWords(m, m', p, e) && p % 8 == 0 && p + n <= e
    ensures Bytes(m', p, n) == Bytes(m, p, n)
  {
  }

  /** When the payload words are kept, so are the bytes of every live allocation. */
  lemma KeptBytes(m: Mem, m': Mem, h: Heap, p: int)
    requires Quiescent(h) && Kept(m, m', h) && p in h.req
    ensures h.req[p] >= 0 && Bytes(m', p, h.req[p]) == Bytes(m, p, h.req[p])
  {
    RequestFits(h, p);
    assert IsAlloc(h, p);
    SameBytes(m, m', p, End(h, p) - 4, h.req[p]);
  }

  /** Memory is kept outside one allocated block. */
  ghost predicate KeptBut(m: Mem, m': Mem, h: Heap, p: int) {
    forall q :: IsAlloc(h, q) && q != p ==> SameWords(m, m', q, End(h, q) - 4)
  }

  /** A client that writes bytes of an allocated payload disturbs nothing else. */
  lemma PayloadWrite(m: Mem, m': Mem, f: seq<int>, h: Heap, p: int, n: nat)
    requires Sound(h, {}) && Rep(m, f, h) && IsAlloc(h, p) && p + n <= End(h, p) - 4 && OutsideSame(m, m', p, n)
    ensures Rep(m', f, h) && KeptBut(m, m', h, p)
  {
    hide BitsSound;
    forall q | q in h.blocks
      ensures TagAt(m', h, q)
      ensures q != p ==> Rd(m', q) == Rd(m, q) && Rd(m', q + 4) == Rd(m, q + 4)
      ensures q != p ==> SameWords(m, m', q, End(h, q) - 4)
    {
      assert TagAt(m, h, q) && Placed(h, q) && Placed(h, p);
    }
    assert Placed(h, p);
    forall i | 0 <= i < FREELIST_COUNT
      ensures Chain(m', f[i], h.lists[i])
    {
      forall q | q in h.lists[i]
        ensures Rd(m', q) == Rd(m, q) && Rd(m', q + 4) == Rd(m, q + 4)
      {
        Listed(h, {}, i, q);
      }
      ChainFrame(m, m', f[i], h.lists[i]);
    }
  }

  lemma KeptButBytes(m: Mem, m': Mem, h: Heap, p: int, q: int)
    requires Quiescent(h) && KeptBut(m, m', h, p) && q in h.req && q != p
    ensures h.req[q] >= 0 && Bytes(m', q, h.req[q]) == Bytes(m, q, h.req[q])
  {
    RequestFits(h, q);
    assert IsAlloc(h, q);
    SameBytes(m, m', q, End(h, q) - 4, h.req[q]);
  }

  lemma BytesPrefix(m: Mem, p: int, n: nat, k: nat)
    requires k <= n
    ensures Bytes(m, p, n)[..k] == Bytes(m, p, k)
  {
  }

  // ---- mm_init -----------------------------------------------------------------------------------

  function Prologue(m: Mem, s: int): Mem {
    m[s := ALIGNMENT_WORD][s + 4 := Pack(8, THISALLOC + PREVALLOC)][s + 8 := Pack(8, THISALLOC + PREVALLOC)]
  }

  /** The words that mm_init writes before it lists the first block, in its order. */
  function FirstWords(m: Mem, s: int, page: int): Mem
    requires page % 4 == 0 && 0 <= page && page + PREVALLOC < WORD_SPAN
  {
    Prologue(m, s)[s + page + 12 := Pack(EPILOGUE, THISALLOC)]
                  [s + 12 := Pack(page, PREVALLOC)][s + page + 8 := Pack(page, PREVALLOC)]
  }

  lemma FirstWordsRep(m: Mem, f: seq<int>, lo: int, limit: int, page: int)
    requires CanInit(lo, limit, page) && page % 4 == 0 && |f| == FREELIST_COUNT
    requires forall i :: 0 <= i < FREELIST_COUNT ==> f[i] == 0
    ensures page + PREVALLOC < WORD_SPAN && Rep(FirstWords(m, lo - 16, page), f, FreshHeap(lo, limit, page))
  {
    var m' := FirstWords(m, lo - 16, page);
    TagParts(page, PREVALLOC);
    assert Ends(m', FreshHeap(lo, limit, page));
    assert Rd(m', lo - 4) == page + PREVALLOC && Rd(m', lo + page - 8) == page + PREVALLOC;
  }
}
