/** mm.c: the allocator itself, writing header, footer and link words in place.  The ghost field
    `h` is the heap value of module HeapSpec that the memory represents between public calls.
    The internal methods take the heap value they start from as a ghost parameter and say which
    function of it the memory represents when they return. */
module Mm {
  import opened Words
  import opened SizeClass
  import opened HeapSpec
  import opened HeapOps
  import opened Layout
  import opened Steps
  import opened Wrapped
  import opened Memlib
  import Runs
  import opened Effects

  /** The guess of mm_check about the largest block. */
  const MAX_BLOCK_ALLOCSIZE: int := 1000000

  /** The largest power of two that getpagesize() can return as an int. */
  const LARGEST_PAGE: int := 0x4000_0000

  /** What mm_init does: it returns 0, it returns -1, or it writes outside the heap. */
  datatype InitResult = Ready | Refused | WildWrite(at: int)

  class Allocator {
    const mem: MemLib
    const freeLists: array<Word>
    var adjustedPageSize: int
    var heapStart: int
    var heapEnd: int
    ghost var h: Heap

    constructor ()
      ensures freeLists.Length == FREELIST_COUNT && mem.words.Length == MAX_HEAP / 4 && mem.words != freeLists
      ensures fresh(mem) && fresh(mem.words) && fresh(freeLists)
    {
      mem := new MemLib();
      freeLists := new Word[FREELIST_COUNT];
    }

    // ---- invariants --------------------------------------------------------------------------

    ghost predicate Mapped()
      reads mem`startBrk, mem`brk, mem`maxAddr, mem`view, mem.words
    {
      mem.Placed() && mem.Mapped() && freeLists.Length == FREELIST_COUNT && mem.words != freeLists
    }

    /** The statics of mm.c and memlib.c agree with heap value `g`. */
    ghost predicate Wired(g: Heap)
      reads mem, `heapStart, `heapEnd, `adjustedPageSize
    {
      && heapStart == mem.startBrk && g.lo == heapStart + 16
      && g.hi == mem.brk && heapEnd == mem.MemHeapHi()
      && g.limit == mem.maxAddr && g.page == adjustedPageSize
    }

    /** Memory and list heads represent heap value `g`; the free blocks of `x` are on no list. */
    ghost predicate Inv(g: Heap, x: set<int>)
      reads this, mem, mem.words, freeLists
    {
      Mapped() && Wired(g) && Sound(g, x) && Rep(mem.view, freeLists[..], g)
    }

    /** The invariant between public calls. */
    ghost predicate Valid()
      reads this, mem, mem.words, freeLists
    {
      Mapped() && Wired(h) && Quiescent(h) && Rep(mem.view, freeLists[..], h)
    }

    /** All words of a block, and the word before its header, can be read and written. */
    lemma BlockInHeap(g: Heap, p: int)
      requires mem.Placed() && Wired(g) && Tiled(g) && p in g.blocks
      ensures mem.InHeap(p - 4) && mem.InHeap(p) && mem.InHeap(p + 4)
      ensures mem.InHeap(End(g, p) - 8) && mem.InHeap(End(g, p) - 4) && mem.InHeap(p - 8)
      ensures 0 < p < WORD_SPAN && p % 8 == 0
    {
      assert HeapSpec.Placed(g, p);
      hide Tiled;
      AlignedDown(p);
      EndAligned(g, p);
    }

    static lemma EndAligned(g: Heap, p: int)
      requires Tiled(g) && p in g.blocks
      ensures (End(g, p) - 4) % 4 == 0 && (End(g, p) - 8) % 4 == 0
    {
      assert HeapSpec.Placed(g, p);
      hide Tiled;
      AlignedSum(p, g.blocks[p].size);
      AlignedDown(End(g, p));
    }

    // ---- free lists --------------------------------------------------------------------------

    ghost predicate LinksMapped(bp: int)
      reads mem`startBrk, mem`brk, mem`maxAddr, mem`view
    {
      && mem.InHeap(bp) && mem.InHeap(bp + 4)
      && (Rd(mem.view, bp) != 0 ==> mem.InHeap(Rd(mem.view, bp) + 4))
      && (Rd(mem.view, bp + 4) != 0 ==> mem.InHeap(Rd(mem.view, bp + 4)))
    }

    /** remove_from_list: follow the two links stored in the block, whatever they are. */
    method RemoveFromList(bp: int, i: int)
      requires Mapped() && 0 <= i < FREELIST_COUNT && LinksMapped(bp)
      modifies mem.words, mem`view, freeLists
      ensures Mapped()
      ensures mem.view == Unlinked(old(mem.view), bp)
      ensures freeLists[..] == UnlinkedHeads(mem.view, old(freeLists[..]), i, bp)
    {
      var next := mem.GetW(bp);
      if next != 0 {
        mem.PutW(next + 4, mem.GetW(bp + 4));
      }
      var prev := mem.GetW(bp + 4);
      if prev != 0 {
        mem.PutW(prev, mem.GetW(bp));
      }
      if freeLists[i] == bp {
        freeLists[i] := mem.GetW(bp);
      }
    }

    /** remove_from_list on a block that is on list `i`: exactly that block leaves the list. */
    method RemoveListed(bp: int, i: int, ghost g: Heap, ghost x: set<int>)
      requires Inv(g, x) && IsFree(g, bp) && bp !in x && g.blocks[bp].size >= 0 && i == ListIndex(g.blocks[bp].size)
      modifies mem.words, mem`view, freeLists
      ensures Inv(Unlist(g, bp), x + {bp})
      ensures Kept(old(mem.view), mem.view, g)
      ensures Rd(mem.view, bp) == Rd(old(mem.view), bp) && Rd(mem.view, bp + 4) == Rd(old(mem.view), bp + 4)
    {
      hide Tiled, BitsSound, Indexed, Tags, Kept, Unlinked;
      LinksInHeap(bp, g, x);
      UnlinkStep(mem.view, freeLists[..], g, x, bp);
      RemoveFromList(bp, i);
    }

    lemma LinksInHeap(bp: int, g: Heap, x: set<int>)
      requires Inv(g, x) && IsFree(g, bp) && bp !in x
      ensures LinksMapped(bp)
    {
      BlockInHeap(g, bp);
      NeighboursListed(mem.view, freeLists[..], g, x, bp);
      if Rd(mem.view, bp) != 0 {
        BlockInHeap(g, Rd(mem.view, bp));
      }
      if Rd(mem.view, bp + 4) != 0 {
        BlockInHeap(g, Rd(mem.view, bp + 4));
      }
    }

    /** find_end_of_list stops at the last node of the list, or at NULL when the list is empty. */
    method FindEndOfList(i: int, ghost l: seq<int>) returns (bp: Word)
      requires Mapped() && 0 <= i < FREELIST_COUNT
      requires Chain(mem.view, freeLists[i], l)
      requires forall p :: p in l ==> mem.InHeap(p) && 0 < p
      ensures bp == Last(l)
    {
      bp := freeLists[i];
      var next := bp;
      ghost var k := 0;
      assert l != [] ==> l[0] in l;
      while next != 0
        invariant 0 <= k <= |l|
        invariant next == (if k < |l| then l[k] else 0)
        invariant k < |l| ==> 0 < l[k]
        invariant k == 0 ==> bp == next
        invariant k > 0 ==> bp == l[k - 1]
        decreases |l| - k
      {
        assert NodeAt(mem.view, l, k) && l[k] in l;
        bp := next;
        next := mem.GetW(bp);
        k := k + 1;
        assert k < |l| ==> l[k] in l;
      }
    }

    /** add_to_list: walk to the last node of list `l` and link the block behind it. */
    method AddToList(bp: Word, i: int, ghost l: seq<int>)
      requires Mapped() && 0 <= i < FREELIST_COUNT && mem.InHeap(bp) && mem.InHeap(bp + 4)
      requires Chain(mem.view[bp := 0], freeLists[i], l)
      requires forall p :: p in l ==> mem.InHeap(p) && 0 < p
      requires 0 <= Last(l) < WORD_SPAN
      modifies mem.words, mem`view, freeLists
      ensures Mapped()
      ensures mem.view == Linked(old(mem.view), bp, Last(l))
      ensures freeLists[..] == LinkedHeads(old(freeLists[..]), i, bp, Last(l))
    {
      mem.PutW(bp, 0);
      var tail := FindEndOfList(i, l);
      if tail == 0 {
        freeLists[i] := bp;
        mem.PutW(bp + 4, 0);
        return;
      }
      assert tail in l;
      mem.PutW(tail, bp);
      mem.PutW(bp + 4, tail);
    }

    /** add_to_list on an unlisted free block: it becomes the last node of its list. */
    method AddUnlisted(bp: int, i: int, ghost g: Heap, ghost x: set<int>)
      requires Inv(g, x) && bp in x && g.blocks[bp].size >= 0 && i == ListIndex(g.blocks[bp].size)
      modifies mem.words, mem`view, freeLists
      ensures Inv(Enlist(g, bp), x - {bp})
      ensures Kept(old(mem.view), mem.view, g)
    {
      hide Tiled, BitsSound, Tags, Kept, Linked;
      BlockInHeap(g, bp);
      TailInHeap(g, i, x);
      FirstWriteKeepsChain(mem.view, freeLists[i], g, x, bp, i);
      LinkStep(mem.view, freeLists[..], g, x, bp);
      AddToList(bp, i, g.lists[i]);
    }

    lemma TailInHeap(g: Heap, i: int, x: set<int>)
      requires mem.Placed() && Wired(g) && Sound(g, x) && 0 <= i < FREELIST_COUNT
      ensures forall p :: p in g.lists[i] ==> mem.InHeap(p) && 0 < p
      ensures 0 <= Last(g.lists[i]) < WORD_SPAN
    {
      forall p | p in g.lists[i]
        ensures mem.InHeap(p) && 0 < p < WORD_SPAN
      {
        Listed(g, x, i, p);
        BlockInHeap(g, p);
      }
      if g.lists[i] != [] {
        assert Last(g.lists[i]) in g.lists[i];
      }
    }

    static lemma FirstWriteKeepsChain(m: Mem, head: int, g: Heap, x: set<int>, bp: int, i: int)
      requires Sound(g, x) && bp in x && 0 <= i < FREELIST_COUNT && Chain(m, head, g.lists[i])
      ensures Chain(m[bp := 0], head, g.lists[i])
    {
      assert HeapSpec.Placed(g, bp);
      ListNodes(g, x, i);
      forall p | p in g.lists[i]
        ensures p != bp
      {
        Listed(g, x, i, p);
      }
      ChainFrame(m, m[bp := 0], head, g.lists[i]);
    }

    // ---- coalesce ----------------------------------------------------------------------------

    /** The space from payload address `p` to payload address `e` lies below the break. */
    predicate SpanMapped(p: int, e: int)
      reads mem`startBrk, mem`brk
    {
      p % 8 == 0 && e % 8 == 0 && mem.startBrk + 8 <= p && p <= e <= mem.brk
    }

    lemma BlockSpan(g: Heap, p: int)
      requires mem.Placed() && Wired(g) && Tiled(g) && p in g.blocks
      ensures SpanMapped(p, End(g, p))
    {
      assert HeapSpec.Placed(g, p);
      hide Tiled;
      AlignedSum(p, g.blocks[p].size);
    }

    /** PUTW of a packed size to GET_BLOCKHDR(bp) and then to GET_BLOCKFTR(bp), which reads the
        size back from the header just written. */
    method PutTags(bp: int, size: int, flags: int, ghost e: int)
      requires Mapped() && SpanMapped(bp, e) && e == bp + size && 0 <= flags < 4
      modifies mem.words, mem`view
      ensures Mapped() && Wrote(old(mem.view), mem.view, bp - 4, e - 8, size + flags)
    {
      hide SpanMapped, MemLib.Mapped, MemLib.Placed, MemLib.InHeap, GetSize;
      TagWords(bp, size, flags, e);
      mem.PutW(bp - 4, Pack(size, flags));
      mem.PutW(bp + GetSize(mem.GetW(bp - 4)) - 8, Pack(size, flags));
    }

    /** The two words can be written, and the size can be read back from the first. */
    lemma TagWords(bp: int, size: int, flags: int, e: int)
      requires mem.Placed() && SpanMapped(bp, e) && e == bp + size && 0 <= flags < 4
      ensures mem.InHeap(bp - 4) && mem.InHeap(e - 8) && size % 4 == 0 && 0 <= size && size + flags < WORD_SPAN
      ensures GetSize(size + flags) == size
    {
      SpanWords(bp, e);
      SpanAligned(bp, e);
      hide SpanMapped;
      TagParts(size, flags);
    }

    lemma SpanAligned(p: int, e: int)
      requires SpanMapped(p, e)
      ensures (e - p) % 8 == 0
    {
      AlignedSum(e, p);
    }

    // Coalesce also runs, after a request whose size wrapped to zero, on a block whose preceding word has been
    // overwritten.  It reads that word, but does not use it unless the PREVALLOC bit is clear.  So its steps are
    // stated for memory that represents a heap value but for that word; memory as it should be is a case of it.

    /** But for the word before the header of `bp`, the memory is `hm`, which represents heap value `g`. */
    ghost predicate Dented(g: Heap, hm: Mem, bp: int)
      reads `heapStart, `heapEnd, `adjustedPageSize, mem, mem.words, freeLists
    {
      Mapped() && Wired(g) && Rep(hm, freeLists[..], g) && ButFor(hm, mem.view, bp - 8)
    }

    /** The word is as it should be. */
    ghost predicate Intact(hm: Mem, bp: int)
      reads mem`view
    {
      Rd(mem.view, bp - 8) == Rd(hm, bp - 8)
    }

    lemma Mend(g: Heap, hm: Mem, bp: int)
      requires Dented(g, hm, bp) && Intact(hm, bp)
      ensures Rep(mem.view, freeLists[..], g)
      ensures forall g' :: Kept(hm, mem.view, g') && Kept(mem.view, hm, g')
    {
      assert forall a :: Rd(mem.view, a) == Rd(hm, a);
      SameRead(hm, mem.view, freeLists[..], g);
    }

    /** remove_from_list on a listed block. */
    method RemoveDented(p: int, i: int, ghost g: Heap, ghost x: set<int>, ghost m: Mem, ghost bp: int)
      returns (ghost hm: Mem)
      requires Dented(g, m, bp) && Sound(g, x) && IsFree(g, p) && p !in x && bp in g.blocks
      requires g.blocks[p].size >= 0 && i == ListIndex(g.blocks[p].size)
      modifies mem.words, mem`view, freeLists
      ensures Sound(Unlist(g, p), x + {p}) && Dented(Unlist(g, p), hm, bp) && Kept(m, hm, g)
      ensures StillBut(m, old(mem.view), hm, mem.view, bp - 8)
    {
      hide Tiled, BitsSound, Indexed, Tags, Kept, Unlinked, ButFor;
      hm := Unlinked(m, p);
      LinksDented(p, g, x, m, bp);
      UnlinkBut(m, mem.view, freeLists[..], i, g, x, p, bp);
      UnlinkStep(m, freeLists[..], g, x, p);
      RemoveFromList(p, i);
    }

    lemma LinksDented(p: int, g: Heap, x: set<int>, m: Mem, bp: int)
      requires Dented(g, m, bp) && Sound(g, x) && IsFree(g, p) && p !in x && bp in g.blocks
      ensures LinksMapped(p)
    {
      BlockInHeap(g, p);
      DentApart(g, bp, p);
      NeighboursListed(m, freeLists[..], g, x, p);
      if Rd(m, p) != 0 {
        BlockInHeap(g, Rd(m, p));
      }
      if Rd(m, p + 4) != 0 {
        BlockInHeap(g, Rd(m, p + 4));
      }
    }

    /** add_to_list on the unlisted block itself. */
    method AddDented(bp: int, i: int, ghost g: Heap, ghost m: Mem) returns (ghost hm: Mem)
      requires Dented(g, m, bp) && Sound(g, {bp}) && bp in g.blocks
      requires |g.lists| == FREELIST_COUNT && g.blocks[bp].size >= 0 && i == ListIndex(g.blocks[bp].size)
      modifies mem.words, mem`view, freeLists
      ensures Dented(Enlist(g, bp), hm, bp) && Kept(m, hm, g)
      ensures StillBut(m, old(mem.view), hm, mem.view, bp - 8)
    {
      hide Tiled, BitsSound, Indexed, Tags, Kept, Linked, Chain, ButFor;
      ghost var l := g.lists[i];
      BlockInHeap(g, bp);
      TailInHeap(g, i, {bp});
      FirstWriteKeepsChain(m, freeLists[i], g, {bp}, bp, i);
      ChainBut(m, mem.view, freeLists[i], g, {bp}, bp, i);
      LinkStep(m, freeLists[..], g, {bp}, bp);
      TailBut(m, mem.view, g, {bp}, bp, i);
      hm := Linked(m, bp, Last(l));
      AddToList(bp, i, l);
    }

    /** The common step of cases 2 to 4: a neighbour leaves its list, and its size is read. */
    method UnlistNeighbour(p: int, ghost g: Heap, ghost x: set<int>, ghost m: Mem, ghost bp: int)
      returns (size: int, ghost hm: Mem)
      requires Dented(g, m, bp) && Sound(g, x) && IsFree(g, p) && p !in x && g.blocks[p].size >= 0 && bp in g.blocks
      modifies mem.words, mem`view, freeLists
      ensures size == g.blocks[p].size
      ensures Sound(Unlist(g, p), x + {p}) && Dented(Unlist(g, p), hm, bp) && Kept(m, hm, g)
      ensures StillBut(m, old(mem.view), hm, mem.view, bp - 8)
      ensures m == old(mem.view) ==> Inv(Unlist(g, p), x + {p}) && Kept(m, mem.view, g)
    {
      hide Tiled, BitsSound, Indexed, Tags, Chains, Kept, ButFor;
      hide MemLib.Mapped, MemLib.InHeap, GetSize, GetAlloc, GetPrevAlloc;
      SeventeenLists(g, x);
      BlockInHeap(g, p);
      ReadTags(m, g, p);
      DentApart(g, bp, p);
      ReadBut(m, mem.view, bp - 8, p - 4);
      var i := CalcListIndex(GetSize(mem.GetW(p - 4)));
      hm := RemoveDented(p, i, g, x, m, bp);
      ReadTags(hm, Unlist(g, p), p);
      ReadBut(hm, mem.view, bp - 8, p - 4);
      size := GetSize(mem.GetW(p - 4));
      if m == old(mem.view) {
        Mend(Unlist(g, p), hm, bp);
        KeptTrans(m, hm, mem.view, g);
      }
    }

    /** Case 2 of coalesce: only the next block is free. */
    method CoalesceNext(bp: int, nextBlock: int, size0: int, ghost g: Heap, ghost m: Mem)
      returns (size: int, ghost hm: Mem)
      requires Dented(g, m, bp) && Sound(g, {bp}) && bp in g.blocks && g.blocks[bp].prev && NextFree(g, bp)
      requires nextBlock == End(g, bp) && size0 == g.blocks[bp].size
      modifies mem.words, mem`view, freeLists
      ensures IsFree(MergeNext(g, bp), bp) && size == MergeNext(g, bp).blocks[bp].size
      ensures Dented(MergeNext(g, bp), hm, bp) && Kept(m, hm, g)
      ensures StillBut(m, old(mem.view), hm, mem.view, bp - 8)
    {
      hide Tiled, BitsSound, Indexed, Tags, Chains, Kept, Wrote, ButFor;
      NextFits(g, bp);
      BlockSpan(g, bp);
      BlockSpan(g, nextBlock);
      ghost var e := End(g, nextBlock);
      var nextSize;
      ghost var m1;
      nextSize, m1 := UnlistNeighbour(nextBlock, g, {bp}, m, bp);
      size := size0 + nextSize;
      ghost var v1 := mem.view;
      PutTags(bp, size, PREVALLOC, e);
      hm := m1[bp - 4 := size + PREVALLOC][e - 8 := size + PREVALLOC];
      TagsBut(m1, hm, v1, mem.view, bp, e, size + PREVALLOC);
      NextStep(m1, hm, freeLists[..], g, bp, size + PREVALLOC);
      KeptTrans(m, m1, hm, g);
    }

    /** Case 3 of coalesce: only the previous block is free. */
    method CoalescePrev(bp: int, prevBlock: int, size0: int, ghost g: Heap) returns (size: int)
      requires Inv(g, {bp}) && bp in g.blocks && !NextFree(g, bp) && !g.blocks[bp].prev
      requires prevBlock == MergePoint(g, bp) && size0 == g.blocks[bp].size
      modifies mem.words, mem`view, freeLists
      ensures Inv(MergePrev(g, bp), {prevBlock}) && IsFree(MergePrev(g, bp), prevBlock)
      ensures size == MergePrev(g, bp).blocks[prevBlock].size
      ensures Kept(old(mem.view), mem.view, g)
    {
      hide Tiled, BitsSound, Indexed, Tags, Chains, Kept, Wrote, MergePrev, ButFor, Unlist;
      SeventeenLists(g, {bp});
      PrevFree(g, bp);
      UnlistFrame(g, prevBlock);
      BlockSpan(g, bp);
      BlockSpan(g, prevBlock);
      ghost var e := End(g, bp);
      SelfBut(mem.view, bp - 8);
      var prevSize;
      ghost var m;
      prevSize, m := UnlistNeighbour(prevBlock, g, {bp}, mem.view, bp);
      size := size0 + prevSize;
      m := mem.view;
      var prevAlloc := GetPrevAllocAt(prevBlock, Unlist(g, prevBlock), {bp} + {prevBlock});
      BlockInHeap(g, bp);
      ReadTags(m, Unlist(g, prevBlock), bp);
      SpanWords(prevBlock, e);
      PutTagsApart(prevBlock, bp, size, prevAlloc, e);
      PrevStep(m, mem.view, freeLists[..], g, bp, prevBlock, size + prevAlloc);
      KeptTrans(old(mem.view), m, mem.view, g);
    }

    /** GET_PREVALLOC(p) of a block. */
    method GetPrevAllocAt(p: int, ghost g: Heap, ghost x: set<int>) returns (flag: int)
      requires Inv(g, x) && p in g.blocks
      ensures flag == Flags(false, g.blocks[p].prev)
    {
      hide Tiled, BitsSound, Indexed, Tags, Chains;
      BlockInHeap(g, p);
      ReadTags(mem.view, g, p);
      flag := GetPrevAlloc(mem.GetW(p - 4));
    }

    /** The two writes of case 3: the footer at GET_BLOCKFTR(bp), whose size is still in the header
        of the block, then the header of the previous block. */
    method PutTagsApart(prevBlock: int, bp: int, size: int, flags: int, ghost e: int)
      requires mem.Mapped() && mem.InHeap(bp - 4) && mem.InHeap(e - 8) && mem.InHeap(prevBlock - 4)
      requires bp + GetSize(Rd(mem.view, bp - 4)) == e
      requires size % 4 == 0 && 0 <= flags < 4 && 0 <= size && size + flags < WORD_SPAN
      modifies mem.words, mem`view
      ensures mem.Mapped() && Wrote(old(mem.view), mem.view, prevBlock - 4, e - 8, size + flags)
    {
      hide MemLib.Mapped, MemLib.InHeap, GetSize;
      mem.PutW(bp + GetSize(mem.GetW(bp - 4)) - 8, Pack(size, flags));
      mem.PutW(prevBlock - 4, Pack(size, flags));
    }

    /** Header and footer of a span can be written, and its size fits a tag. */
    lemma SpanWords(p: int, e: int)
      requires mem.Placed() && SpanMapped(p, e)
      ensures mem.InHeap(p - 4) && mem.InHeap(e - 8) && (e - p) % 4 == 0 && e - p + 3 < WORD_SPAN
    {
      AlignedSum(e, p);
      AlignedDown(p);
      AlignedDown(e);
      AlignedDown(e - p);
    }

    /** Case 4 of coalesce: both neighbours are free. */
    method CoalesceBoth(bp: int, prevBlock: int, nextBlock: int, size0: int, ghost g: Heap) returns (size: int)
      requires Inv(g, {bp}) && IsFree(g, bp) && NextFree(g, bp) && !g.blocks[bp].prev && |g.lists| == FREELIST_COUNT
      requires prevBlock == MergePoint(g, bp) && nextBlock == End(g, bp) && size0 == g.blocks[bp].size
      modifies mem.words, mem`view, freeLists
      ensures Sound(MergeNext(g, bp), {bp}) && bp in MergeNext(g, bp).blocks
      ensures |MergeNext(g, bp).lists| == FREELIST_COUNT
      ensures var g2 := MergePrev(MergeNext(g, bp), bp);
        Inv(g2, {prevBlock}) && IsFree(g2, prevBlock) && size == g2.blocks[prevBlock].size
      ensures Kept(old(mem.view), mem.view, g)
    {
      hide Tiled, BitsSound, Indexed, Tags, Chains, Kept, Wrote, MergePrev, MergeNext, Unlist, ButFor;
      hide MemLib.Mapped, MemLib.InHeap, GetSize, GetAlloc, GetPrevAlloc;
      CoalesceSteps(g, bp);
      SeventeenLists(MergeNext(g, bp), {bp});
      NextFits(g, bp);
      PrevFree(g, bp);
      BlockSpan(g, bp);
      BlockSpan(g, prevBlock);
      BlockSpan(g, nextBlock);
      BothFit(g, bp, nextBlock, prevBlock);
      SelfBut(mem.view, bp - 8);
      var nextSize, prevSize;
      ghost var m1, m2;
      nextSize, m1 := UnlistNeighbour(nextBlock, g, {bp}, mem.view, bp);
      m1 := mem.view;
      ghost var g1 := Unlist(g, nextBlock);
      UnlistFrame(g, nextBlock);
      SelfBut(m1, bp - 8);
      prevSize, m2 := UnlistNeighbour(prevBlock, g1, {bp} + {nextBlock}, m1, bp);
      m2 := mem.view;
      KeptBlocks(m1, m2, g1, g);
      KeptTrans(old(mem.view), m1, m2, g);
      ghost var g2 := BothUnlisted(g, nextBlock, prevBlock);
      UnlistFrame(g1, prevBlock);
      size := size0 + prevSize + nextSize;
      ghost var x := {bp} + {nextBlock} + {prevBlock};
      var prevAlloc := GetPrevAllocAt(prevBlock, g2, x);
      BothWords(m2, g2, x, prevBlock, bp, nextBlock);
      PutTagsFar(prevBlock, bp, nextBlock, size, prevAlloc, End(g2, nextBlock));
      BothStep(m2, mem.view, freeLists[..], g, bp, nextBlock, prevBlock, size + prevAlloc);
      KeptTrans(old(mem.view), m2, mem.view, g);
    }

    static lemma UnlistFrame(g: Heap, p: int)
      requires p in g.blocks && g.blocks[p].size >= 0 && |g.lists| == FREELIST_COUNT
      ensures Unlist(g, p).blocks == g.blocks && SameFrame(g, Unlist(g, p))
      ensures |Unlist(g, p).lists| == FREELIST_COUNT && Unlist(g, p).req == g.req
    {
    }

    static lemma BothFit(g: Heap, p: int, n: int, q: int)
      requires Tiled(g) && p in g.blocks && q in g.blocks && n in g.blocks && End(g, q) == p && End(g, p) == n
      ensures q < p < n && End(g, n) == q + g.blocks[q].size + g.blocks[p].size + g.blocks[n].size
    {
    }

    /** What case 4 reads in the tags of the three blocks, and that it can write the outer ones. */
    lemma BothWords(m: Mem, g: Heap, x: set<int>, prevBlock: int, bp: int, nextBlock: int)
      requires mem.Placed() && Wired(g) && Sound(g, x) && Tags(m, g) && IsFree(g, prevBlock) && bp in g.blocks
      requires nextBlock in g.blocks && End(g, prevBlock) == bp && End(g, bp) == nextBlock
      ensures mem.InHeap(bp - 8) && mem.InHeap(bp - 4) && mem.InHeap(nextBlock - 4)
      ensures mem.InHeap(prevBlock - 4) && mem.InHeap(End(g, nextBlock) - 8)
      ensures bp - GetSize(Rd(m, bp - 8)) == prevBlock && bp + GetSize(Rd(m, bp - 4)) == nextBlock
      ensures nextBlock + GetSize(Rd(m, nextBlock - 4)) == End(g, nextBlock)
      ensures var size := End(g, nextBlock) - prevBlock; size % 4 == 0 && 0 <= size && size + 3 < WORD_SPAN
    {
      hide Tiled, BitsSound, Indexed, Tags, MemLib.InHeap;
      BlockInHeap(g, bp);
      BlockInHeap(g, nextBlock);
      BlockInHeap(g, prevBlock);
      ReadTags(m, g, bp);
      ReadTags(m, g, nextBlock);
      ReadFooter(m, g, prevBlock);
      BlockSpan(g, prevBlock);
      BlockSpan(g, bp);
      BlockSpan(g, nextBlock);
      SpanWords(prevBlock, End(g, nextBlock));
    }

    /** The two writes of case 4, through GET_PREVBLOCK(bp) and GET_NEXTBLOCK(bp). */
    method PutTagsFar(prevBlock: int, bp: int, nextBlock: int, size: int, flags: int, ghost e: int)
      requires mem.Mapped() && mem.InHeap(bp - 8) && mem.InHeap(bp - 4) && mem.InHeap(nextBlock - 4)
      requires mem.InHeap(e - 8) && mem.InHeap(prevBlock - 4) && prevBlock < bp < nextBlock
      requires bp - GetSize(Rd(mem.view, bp - 8)) == prevBlock && bp + GetSize(Rd(mem.view, bp - 4)) == nextBlock
      requires nextBlock + GetSize(Rd(mem.view, nextBlock - 4)) == e
      requires size % 4 == 0 && 0 <= flags < 4 && 0 <= size && size + flags < WORD_SPAN
      modifies mem.words, mem`view
      ensures mem.Mapped() && Wrote(old(mem.view), mem.view, prevBlock - 4, e - 8, size + flags)
    {
      hide MemLib.Mapped, MemLib.InHeap, GetSize;
      mem.PutW(bp - GetSize(mem.GetW(bp - 8)) - 4, Pack(size, flags));
      var next := bp + GetSize(mem.GetW(bp - 4));
      mem.PutW(next + GetSize(mem.GetW(next - 4)) - 8, Pack(size, flags));
    }

    /** The five reads at the start of coalesce. */
    method ReadNeighbours(bp: int, ghost g: Heap, ghost hm: Mem)
      returns (prevAlloc: int, nextAlloc: int, size: int, nextBlock: int, prevBlock: int)
      requires Dented(g, hm, bp) && Sound(g, {bp}) && bp in g.blocks && (g.blocks[bp].prev || Intact(hm, bp))
      ensures prevAlloc == Flags(false, g.blocks[bp].prev)
      ensures nextAlloc == 0 <==> NextFree(g, bp)
      ensures size == g.blocks[bp].size && nextBlock == End(g, bp)
      ensures !g.blocks[bp].prev ==> prevBlock == MergePoint(g, bp)
    {
      hide Tiled, BitsSound, Indexed, Rep, ButFor, MemLib.Mapped, MemLib.InHeap, GetSize, GetAlloc, GetPrevAlloc;
      BlockInHeap(g, bp);
      DentApart(g, bp, bp);
      NeighbourTags(hm, freeLists[..], g, bp);
      ReadBut(hm, mem.view, bp - 8, bp - 4);
      ReadBut(hm, mem.view, bp - 8, End(g, bp) - 4);
      prevAlloc := GetPrevAlloc(mem.GetW(bp - 4));
      size := GetSize(mem.GetW(bp - 4));
      nextBlock := bp + size;
      nextAlloc := GetAlloc(mem.GetW(nextBlock - 4));
      prevBlock := bp - GetSize(mem.GetW(bp - 8));
    }

    static lemma NeighbourTags(m: Mem, f: seq<int>, g: Heap, bp: int)
      requires Tiled(g) && BitsSound(g) && Rep(m, f, g) && bp in g.blocks
      ensures GetPrevAlloc(Rd(m, bp - 4)) == Flags(false, g.blocks[bp].prev)
      ensures GetSize(Rd(m, bp - 4)) == g.blocks[bp].size
      ensures GetAlloc(Rd(m, End(g, bp) - 4)) == 0 <==> NextFree(g, bp)
      ensures !g.blocks[bp].prev ==> bp - GetSize(Rd(m, bp - 8)) == MergePoint(g, bp)
    {
      hide Tiled, BitsSound, Tags, Chains;
      ReadTags(m, g, bp);
      ReadNext(m, g, bp);
      if !g.blocks[bp].prev {
        ReadPrev(m, g, bp);
      }
    }

    /** When a merge does not apply, its half of coalesce is the identity. */
    static lemma MergeSkips(g: Heap, p: int)
      requires Tiled(g) && BitsSound(g) && IsFree(g, p) && |g.lists| == FREELIST_COUNT
      ensures !NextFree(g, p) ==> MergeNext(g, p) == g
      ensures g.blocks[p].prev ==> MergePrev(g, p) == g && MergePoint(g, p) == p
    {
    }

    static lemma MergeNextBit(g: Heap, p: int)
      requires Sound(g, {p}) && IsFree(g, p) && |g.lists| == FREELIST_COUNT
      ensures IsFree(MergeNext(g, p), p) && MergeNext(g, p).blocks[p].prev == g.blocks[p].prev
    {
    }

    static lemma KeptAcross(m: Mem, m': Mem, g: Heap, p: int)
      requires Sound(g, {p}) && IsFree(g, p) && Sound(MergeNext(g, p), {p}) && p in MergeNext(g, p).blocks
      requires Kept(m, m', MergePrev(MergeNext(g, p), p))
      ensures Kept(m, m', g)
    {
      var g2 := MergePrev(MergeNext(g, p), p);
      CoalesceSteps(g, p);
      CoalescedAlloc(g, p);
      forall q | IsAlloc(g, q)
        ensures SameWords(m, m', q, End(g, q) - 4)
      {
        assert IsAlloc(Coalesced(g, p), q) && Coalesced(g, p).blocks == g2.blocks;
        assert IsAlloc(g2, q);
      }
    }

    /** coalesce: merge an unlisted free block with its free neighbours, as far as the PREVALLOC bit
        and the next header tell, and list the result. */
    method Coalesce(bp0: int, ghost g: Heap, ghost m: Mem) returns (bp: int, ghost hm: Mem)
      requires Dented(g, m, bp0) && Sound(g, {bp0}) && bp0 in g.blocks && (g.blocks[bp0].prev || Intact(m, bp0))
      modifies mem.words, mem`view, freeLists
      ensures bp == MergePoint(g, bp0) && Mapped() && Wired(Coalesced(g, bp0)) && Sound(Coalesced(g, bp0), {})
      ensures old(Intact(m, bp0)) ==> Inv(Coalesced(g, bp0), {}) && Kept(old(mem.view), mem.view, g)
      ensures g.blocks[bp0].prev ==> Dented(Coalesced(g, bp0), hm, bp0) && Kept(m, hm, g)
      ensures g.blocks[bp0].prev ==> StillBut(m, old(mem.view), hm, mem.view, bp0 - 8)
    {
      hide Tiled, BitsSound, Indexed, Rep, Kept, MergePrev, MergeNext, Enlist, MergePoint, ButFor;
      CoalesceSteps(g, bp0);
      CoalescedSound(g, bp0);
      StartsFree(g, bp0);
      ghost var g1 := MergeNext(g, bp0);
      StartsFree(g1, bp0);
      MergeNextBit(g, bp0);
      MergeSkips(g, bp0);
      MergeSkips(g1, bp0);
      ghost var g2 := MergePrev(g1, bp0);
      SeventeenLists(g2, {MergePoint(g, bp0)});
      ghost var v := mem.view;
      if Intact(m, bp0) {
        Mend(g, m, bp0);
      }
      bp := bp0;
      hm := m;
      var prevAlloc, nextAlloc, size, nextBlock, prevBlock := ReadNeighbours(bp, g, m);
      if prevAlloc != 0 && nextAlloc == 0 {
        size, hm := CoalesceNext(bp, nextBlock, size, g, m);
        KeptThrough(v, m, hm, g);
      } else if prevAlloc == 0 && nextAlloc != 0 {
        size := CoalescePrev(bp, prevBlock, size, g);
        bp := prevBlock;
        hm := mem.view;
        SelfBut(hm, bp - 8);
      } else if prevAlloc == 0 && nextAlloc == 0 {
        size := CoalesceBoth(bp, prevBlock, nextBlock, size, g);
        bp := prevBlock;
        hm := mem.view;
        SelfBut(hm, bp - 8);
      } else {
        KeptRefl(m, g);
      }
      assert Rd(v, bp0 - 8) == Rd(m, bp0 - 8) ==> Kept(v, hm, g) && Intact(hm, bp);
      ghost var m1, v1 := hm, mem.view;
      var i := CalcListIndex(size);
      hm := AddDented(bp, i, g2, m1);
      KeptAcross(m1, hm, g, bp0);
      if g.blocks[bp0].prev {
        KeptTrans(m, m1, hm, g);
        StillTrans(m, v, m1, v1, hm, mem.view, bp0 - 8);
      }
      if Rd(v, bp0 - 8) == Rd(m, bp0 - 8) {
        Mend(Coalesced(g, bp0), hm, bp);
        KeptTrans(v, m1, hm, g);
        KeptTrans(v, hm, mem.view, g);
      }
    }

    static lemma SelfBut(m: Mem, d: int)
      ensures ButFor(m, m, d)
    {
    }

    static lemma KeptThrough(m: Mem, m1: Mem, m2: Mem, g: Heap)
      requires Kept(m1, m2, g)
      ensures Kept(m, m1, g) ==> Kept(m, m2, g)
    {
    }

    static lemma KeptRefl(m: Mem, g: Heap)
      ensures Kept(m, m, g)
    {
    }

    // ---- allocate ----------------------------------------------------------------------------

    /** allocate: the block leaves its list and is split or taken whole.  Its own link words, now the
        first words of the payload, keep their stale values.  An adjusted size of zero, which comes from a
        request that wrapped around, gives the block back whole, with the word before its header overwritten. */
    method Allocate(bp: int, adj: int, ghost g: Heap) returns (ghost hm: Mem)
      requires Inv(g, {}) && IsFree(g, bp) && |g.lists| == FREELIST_COUNT && g.blocks[bp].size >= 0
      requires if adj == 0 then AllBitsSet(g) else Fits(g, bp, adj)
      modifies mem.words, mem`view, freeLists
      ensures adj != 0 ==> Inv(Allocated(g, bp, adj), {}) && Kept(old(mem.view), mem.view, g)
      ensures adj != 0 ==>
        Rd(mem.view, bp) == Rd(old(mem.view), bp) && Rd(mem.view, bp + 4) == Rd(old(mem.view), bp + 4)
      ensures adj == 0 ==> Sound(Relisted(g, bp), {}) && Dented(Relisted(g, bp), hm, bp)
      ensures adj == 0 ==> Rd(mem.view, bp - 8) == DENT && Kept(old(mem.view), hm, g)
    {
      hide Tiled, BitsSound, Indexed, Rep, Kept, Coalesced, TakeWhole, Unlist, Split;
      BlockInHeap(g, bp);
      BlockSize(g, bp);
      ReadRep(mem.view, freeLists[..], g, bp);
      AllocatePieces(g, bp, adj);
      UnlistFrame(g, bp);
      var csize := GetSize(mem.GetW(bp - 4));
      var isPrevAlloc := GetPrevAlloc(mem.GetW(bp - 4));
      var i := CalcListIndex(csize);
      RemoveListed(bp, i, g, {});
      assert {} + {bp} == {bp};
      ghost var m := mem.view;
      ghost var g1 := Unlist(g, bp);
      hm := m;
      if csize - adj >= 16 {
        hm := AllocateSplit(bp, adj, csize, isPrevAlloc, g1);
      } else {
        AllocateWhole(bp, csize, isPrevAlloc, g1);
      }
      ghost var m' := if adj == 0 then hm else mem.view;
      KeptBlocks(m, m', g1, g);
      KeptTrans(old(mem.view), m, m', g);
    }

    static lemma ReadRep(m: Mem, f: seq<int>, g: Heap, p: int)
      requires Tiled(g) && Rep(m, f, g) && p in g.blocks
      ensures GetSize(Rd(m, p - 4)) == g.blocks[p].size
      ensures GetPrevAlloc(Rd(m, p - 4)) == Flags(false, g.blocks[p].prev)
    {
      ReadTags(m, g, p);
    }

    /** The heap values on the way, whichever branch is taken. */
    static lemma AllocatePieces(g: Heap, bp: int, adj: int)
      requires Sound(g, {}) && IsFree(g, bp) && |g.lists| == FREELIST_COUNT && g.blocks[bp].size >= 0
      requires if adj == 0 then AllBitsSet(g) else Fits(g, bp, adj)
      ensures Sound(Unlist(g, bp), {bp})
      ensures adj == 0 ==> g.blocks[bp].prev && Sound(Relisted(g, bp), {})
      ensures adj != 0 && Splits(g, bp, adj) ==>
        Sound(Split(Unlist(g, bp), bp, adj), {bp + adj}) && bp + adj in Split(Unlist(g, bp), bp, adj).blocks
      ensures adj != 0 && !Splits(g, bp, adj) ==> Sound(TakeWhole(Unlist(g, bp), bp), {})
    {
      hide Tiled, BitsSound, Indexed, Coalesced;
      if adj == 0 {
        UnlistSound(g, {}, bp);
        assert {} + {bp} == {bp};
        RelistedSound(g, bp);
      } else {
        AllocateSteps(g, bp, adj);
      }
    }

    method AllocateSplit(bp: int, adj: int, csize: int, isPrevAlloc: int, ghost g: Heap) returns (ghost hm: Mem)
      requires Inv(g, {bp}) && IsFree(g, bp) && 0 <= adj
      requires csize == g.blocks[bp].size && isPrevAlloc == Flags(false, g.blocks[bp].prev)
      requires adj == 0 ==> g.blocks[bp].prev
      requires adj != 0 ==> Fits(g, bp, adj) && Splits(g, bp, adj)
      requires adj != 0 ==> Sound(Split(g, bp, adj), {bp + adj}) && bp + adj in Split(g, bp, adj).blocks
      modifies mem.words, mem`view, freeLists
      ensures adj != 0 ==> Inv(Coalesced(Split(g, bp, adj), bp + adj), {}) && Kept(old(mem.view), mem.view, g)
      ensures adj != 0 ==>
        Rd(mem.view, bp) == Rd(old(mem.view), bp) && Rd(mem.view, bp + 4) == Rd(old(mem.view), bp + 4)
      ensures adj == 0 ==> Dented(Coalesced(g, bp), hm, bp)
      ensures adj == 0 ==> Rd(mem.view, bp - 8) == DENT && Kept(old(mem.view), hm, g)
    {
      hide Tiled, BitsSound, Indexed, Rep, Kept, Wrote, Coalesced, Split, ButFor;
      ghost var m := mem.view;
      BlockSize(g, bp);
      SplitSpans(g, bp, adj);
      PutTags(bp, adj, THISALLOC + isPrevAlloc, bp + adj);
      ghost var m1 := mem.view;
      WroteAt(m, m1, bp - 4, bp + adj - 8, adj + THISALLOC + isPrevAlloc);
      TagParts(adj, THISALLOC + isPrevAlloc);
      var rest := bp + GetSize(mem.GetW(bp - 4));
      PutTags(rest, csize - adj, PREVALLOC, End(g, bp));
      ghost var m2 := mem.view;
      ghost var g1, hm0 := SplitOrNothing(m, m1, m2, freeLists[..], g, bp, adj, isPrevAlloc);
      var merged;
      merged, hm := Coalesce(rest, g1, hm0);
      if adj == 0 {
        KeptTrans(m, hm0, hm, g);
      } else {
        SplitTiled(g, bp, adj);
        KeptSplit(m2, mem.view, g, bp, adj);
        KeptTrans(m, m2, mem.view, g);
      }
    }

    /** The heap value after the four tag writes, and the memory that represents it but for at most the word
        before the header of the rest. */
    static lemma SplitOrNothing(m: Mem, m1: Mem, m2: Mem, f: seq<int>, g: Heap, bp: int, adj: int, prevFlag: int)
      returns (g1: Heap, hm: Mem)
      requires Sound(g, {bp}) && Rep(m, f, g) && IsFree(g, bp) && 0 <= adj
      requires prevFlag == Flags(false, g.blocks[bp].prev)
      requires adj == 0 ==> g.blocks[bp].prev
      requires adj != 0 ==> Fits(g, bp, adj) && Splits(g, bp, adj)
      requires adj != 0 ==> Sound(Split(g, bp, adj), {bp + adj}) && bp + adj in Split(g, bp, adj).blocks
      requires 0 <= adj + THISALLOC + prevFlag < WORD_SPAN && 0 <= g.blocks[bp].size - adj + PREVALLOC < WORD_SPAN
      requires Wrote(m, m1, bp - 4, bp + adj - 8, adj + THISALLOC + prevFlag)
      requires Wrote(m1, m2, bp + adj - 4, End(g, bp) - 8, g.blocks[bp].size - adj + PREVALLOC)
      ensures g1 == (if adj == 0 then g else Split(g, bp, adj)) && SameFrame(g, g1)
      ensures Sound(g1, {bp + adj}) && bp + adj in g1.blocks && g1.blocks[bp + adj].prev
      ensures Rep(hm, f, g1) && ButFor(hm, m2, bp + adj - 8) && Kept(m, hm, g)
      ensures adj == 0 ==> Rd(m2, bp - 8) == DENT
      ensures adj != 0 ==> hm == m2 && Rd(m2, bp) == Rd(m, bp) && Rd(m2, bp + 4) == Rd(m, bp + 4)
    {
      hide Tiled, BitsSound, Indexed, Rep, Kept, Wrote, ButFor;
      if adj == 0 {
        g1 := g;
        hm := NothingStep(m, m1, m2, f, g, bp, g.blocks[bp].size + PREVALLOC);
      } else {
        g1 := Split(g, bp, adj);
        hm := m2;
        SplitStep(m, m1, m2, f, g, bp, adj, adj + THISALLOC + prevFlag, g.blocks[bp].size - adj + PREVALLOC);
        SelfBut(m2, bp + adj - 8);
      }
    }

    static lemma WroteAt(m: Mem, m': Mem, a: int, b: int, w: Word)
      requires Wrote(m, m', a, b, w)
      ensures Rd(m', a) == w
    {
    }

    lemma SplitSpans(g: Heap, bp: int, adj: int)
      requires mem.Placed() && Wired(g) && Tiled(g) && bp in g.blocks
      requires adj % 8 == 0 && 0 <= adj <= g.blocks[bp].size
      ensures SpanMapped(bp, bp + adj) && SpanMapped(bp + adj, End(g, bp)) && mem.InHeap(bp - 4)
      ensures adj + 3 < WORD_SPAN && g.blocks[bp].size - adj + 3 < WORD_SPAN
    {
      assert HeapSpec.Placed(g, bp);
      hide Tiled;
      AlignedSum(bp, adj);
      AlignedSum(bp, g.blocks[bp].size);
      AlignedDown(bp);
    }

    /** After the split the first two payload words of the block count as payload. */
    static lemma KeptSplit(m: Mem, m': Mem, g: Heap, bp: int, adj: int)
      requires IsFree(g, bp) && 16 <= adj && bp + adj !in g.blocks && Kept(m, m', Split(g, bp, adj))
      ensures Kept(m, m', g) && Rd(m', bp) == Rd(m, bp) && Rd(m', bp + 4) == Rd(m, bp + 4)
    {
      var g1 := Split(g, bp, adj);
      assert IsAlloc(g1, bp) && SameWords(m, m', bp, End(g1, bp) - 4);
      forall p | IsAlloc(g, p)
        ensures SameWords(m, m', p, End(g, p) - 4)
      {
        assert IsAlloc(g1, p);
      }
    }

    method AllocateWhole(bp: int, csize: int, isPrevAlloc: int, ghost g: Heap)
      requires Inv(g, {bp}) && IsFree(g, bp)
      requires csize == g.blocks[bp].size && isPrevAlloc == Flags(false, g.blocks[bp].prev)
      requires Sound(TakeWhole(g, bp), {})
      modifies mem.words, mem`view, freeLists
      ensures Inv(TakeWhole(g, bp), {})
      ensures Kept(old(mem.view), mem.view, g)
      ensures Rd(mem.view, bp) == Rd(old(mem.view), bp) && Rd(mem.view, bp + 4) == Rd(old(mem.view), bp + 4)
    {
      hide Tiled, BitsSound, Indexed, Tags, Chains, Kept, Wrote, TakeWhole;
      ghost var m := mem.view;
      BlockSpan(g, bp);
      BlockInHeap(g, bp);
      PutTags(bp, csize, THISALLOC + isPrevAlloc, End(g, bp));
      ghost var m1 := mem.view;
      ghost var w1 := csize + THISALLOC + isPrevAlloc;
      WroteAt(m, m1, bp - 4, End(g, bp) - 8, w1);
      BlockSize(g, bp);
      SizeAligned(g, bp);
      TagParts(csize, THISALLOC + isPrevAlloc);
      var hdr := bp + GetSize(mem.GetW(bp - 4)) - 4;
      mem.PutW(hdr, OrPrevAlloc(mem.GetW(hdr)));
      ghost var w2 := OrPrevAlloc(Rd(m1, hdr));
      WroteOne(m1, mem.view, hdr, w2);
      WholeStep(m, m1, mem.view, freeLists[..], g, bp, w1, w2);
      TakeWholeFrame(g, bp);
    }

    static lemma SizeAligned(g: Heap, p: int)
      requires Tiled(g) && p in g.blocks
      ensures g.blocks[p].size % 8 == 0 && g.blocks[p].size + 3 < WORD_SPAN
    {
    }

    static lemma WroteOne(m: Mem, m': Mem, a: int, w: Word)
      requires m' == m[a := w]
      ensures Wrote(m, m', a, a, w)
    {
    }

    static lemma TakeWholeFrame(g: Heap, bp: int)
      requires bp in g.blocks
      ensures var g' := TakeWhole(g, bp); g'.lo == g.lo && g'.hi == g.hi && g'.limit == g.limit && g'.page == g.page
    {
    }

    // ---- extend_heap -------------------------------------------------------------------------

    /** A size_t passed where C expects an int. */
    static function ToInt(n: Word): int {
      if n < 0x8000_0000 then n else n - WORD_SPAN
    }

    /** extend_heap: NULL and no change when the region is exhausted; otherwise a listed free block of
        at least `n` bytes at the end of the heap. */
    method ExtendHeap(n: Word, ghost g: Heap) returns (bp: int)
      requires Inv(g, {}) && n % 8 == 0 && 16 <= n
      modifies mem.words, mem`view, mem`brk, freeLists, `heapEnd
      ensures g.hi + n > g.limit ==> bp == 0 && Inv(g, {})
      ensures g.hi + n > g.limit ==> mem.view == old(mem.view) && freeLists[..] == old(freeLists[..])
      ensures g.hi + n <= g.limit ==> CanGrow(g, n) && Inv(Extended(g, n), {}) && bp == ExtensionPoint(g, n)
      ensures Kept(old(mem.view), mem.view, g)
    {
      hide Tiled, BitsSound, Indexed, Tags, Chains, Kept, Wrote, Coalesced, MemLib.Mapped;
      ghost var m := mem.view;
      BoundsOf(g);
      var oldBrk := mem.MemSbrk(ToInt(n));
      if oldBrk == -1 {
        KeptRefl(m, g);
        return 0;
      }
      assert CanGrow(g, n);
      bp := oldBrk;
      GrownSound(g, n);
      WriteExtension(bp, n, g);
      ghost var m1 := mem.view;
      SelfBut(m1, bp - 8);
      ghost var hm;
      bp, hm := Coalesce(bp, Grown(g, n), m1);
      KeptGrown(m1, mem.view, g, n);
      KeptTrans(m, m1, mem.view, g);
    }

    /** The tags of the new block, whose PREVALLOC bit comes from the old epilogue, and a new epilogue. */
    method WriteExtension(bp: int, n: Word, ghost g: Heap)
      requires Mapped() && Sound(g, {}) && Rep(mem.view, freeLists[..], g) && CanGrow(g, n)
      requires mem.startBrk + 16 < g.hi && bp == g.hi == heapEnd + 1 && mem.brk == bp + n && g.hi % 8 == 0
      modifies mem.words, mem`view, `heapEnd
      ensures Mapped() && heapEnd == mem.MemHeapHi() && Rep(mem.view, freeLists[..], Grown(g, n))
      ensures Kept(old(mem.view), mem.view, g)
    {
      hide Tiled, BitsSound, Indexed, Tags, Chains, Kept, Wrote, MemLib.Mapped;
      ghost var m := mem.view;
      BreakWords(g, n);
      ReadEpilogue(m, g);
      var prevAlloc := GetPrevAlloc(mem.GetW(heapEnd + 1 - 4));
      PutTags(bp, n, prevAlloc, bp + n);
      ghost var m1 := mem.view;
      WroteAt(m, m1, bp - 4, bp + n - 8, n + prevAlloc);
      TagParts(n, prevAlloc);
      var next := bp + GetSize(mem.GetW(bp - 4));
      mem.PutW(next - 4, EPILOGUE + THISALLOC);
      heapEnd := mem.MemHeapHi();
      WroteOne(m1, mem.view, next - 4, EPILOGUE + THISALLOC);
      GrowStep(m, m1, mem.view, freeLists[..], g, n, n + prevAlloc);
    }

    lemma BoundsOf(g: Heap)
      requires mem.Placed() && Wired(g) && Tiled(g)
      ensures mem.startBrk + 16 < g.hi <= g.limit && g.hi % 8 == 0
    {
    }

    lemma BreakWords(g: Heap, n: int)
      requires mem.Placed() && g.hi % 8 == 0 && n % 8 == 0 && 16 <= n && mem.startBrk + 16 < g.hi
      requires g.hi + n <= mem.brk
      ensures SpanMapped(g.hi, g.hi + n) && mem.InHeap(g.hi - 4) && mem.InHeap(g.hi + n - 4)
    {
      AlignedSum(g.hi, n);
      AlignedDown(g.hi);
      AlignedDown(g.hi + n);
    }

    static lemma ReadEpilogue(m: Mem, g: Heap)
      requires Tags(m, g)
      ensures GetPrevAlloc(Rd(m, g.hi - 4)) == Flags(false, g.epi)
    {
    }

    static lemma KeptGrown(m: Mem, m': Mem, g: Heap, n: int)
      requires Tiled(g) && Kept(m, m', Grown(g, n))
      ensures Kept(m, m', g)
    {
      BreakIsNoBlock(g);
      forall p | IsAlloc(g, p)
        ensures SameWords(m, m', p, End(g, p) - 4)
      {
        assert IsAlloc(Grown(g, n), p);
      }
    }

    // ---- find_fit ----------------------------------------------------------------------------

    /** find_fit: the head of the lowest list, from the class of the size up, whose head fits. */
    method FindFitBlock(adj: nat, ghost g: Heap) returns (bp: int, i: int)
      requires Inv(g, {}) && |g.lists| == FREELIST_COUNT
      ensures bp == FindFit(g, adj, ListIndex(adj))
      ensures bp != 0 ==> 0 <= i < FREELIST_COUNT && g.lists[i] != [] && g.lists[i][0] == bp
    {
      hide Tiled, BitsSound, Indexed, Tags, Chains, FindFit, MemLib.Mapped;
      var minIndex := CalcListIndex(adj);
      i := minIndex;
      while i < FREELIST_COUNT
        invariant minIndex <= i <= FREELIST_COUNT
        invariant FindFit(g, adj, minIndex) == FindFit(g, adj, i)
      {
        var fit := freeLists[i];
        HeadRead(g, i);
        FindFitStep(g, adj, i);
        if fit != 0 {
          BlockInHeap(g, fit);
          ReadTags(mem.view, g, fit);
          if GetSize(mem.GetW(fit - 4)) >= adj {
            return fit, i;
          }
        }
        i := i + 1;
      }
      FindFitStep(g, adj, i);
      return 0, i;
    }

    static lemma FindFitStep(g: Heap, adj: int, i: int)
      requires |g.lists| == FREELIST_COUNT && 0 <= i <= FREELIST_COUNT
      ensures FindFit(g, adj, i) == if i == FREELIST_COUNT then 0
                                    else if HeadFits(g, i, adj) then g.lists[i][0] else FindFit(g, adj, i + 1)
    {
    }

    lemma HeadRead(g: Heap, i: int)
      requires Inv(g, {}) && 0 <= i < FREELIST_COUNT
      ensures if g.lists[i] == [] then freeLists[i] == 0
              else freeLists[i] == g.lists[i][0] && IsFree(g, g.lists[i][0]) && g.lists[i][0] > 0
    {
    }

    // ---- the public operations ---------------------------------------------------------------

    /** The bytes of every live allocation, by pointer. */
    ghost function Contents(): map<int, seq<int>>
      requires Quiescent(h)
      reads `h, mem`view
    {
      LiveContents(mem.view, h)
    }

    /** The void pointer that mem_sbrk returns. */
    static function ToPointer(r: int): int {
      if r == -1 then WORD_SPAN - 1 else r
    }

    /** The first extension fits the region. */
    static predicate InitFits(pageSize: int) {
      1 <= pageSize <= LARGEST_PAGE && AdjustByteSize(2 * pageSize) + 16 <= MAX_HEAP
    }

    /** mm_init: `region` is the address of the region, `pageSize` what getpagesize() returns.  A failing
        mem_sbrk is not noticed, because its result is -1 and not NULL: the first write then goes to
        that address, with no word below the break.  So mm_init never returns -1. */
    method MmInit(region: int, pageSize: int) returns (r: InitResult)
      requires freeLists.Length == FREELIST_COUNT && mem.words.Length == MAX_HEAP / 4 && mem.words != freeLists
      requires 8 <= region && region % 8 == 0 && region + MAX_HEAP < WORD_SPAN
      requires 1 <= pageSize <= LARGEST_PAGE
      modifies this, mem, mem.words, freeLists
      ensures mem.startBrk == region
      ensures InitFits(pageSize) ==>
        r == Ready && Valid() && h == InitHeap(region + 16, region + MAX_HEAP, AdjustByteSize(2 * pageSize))
      ensures InitFits(pageSize) ==> InitialWords(region, AdjustByteSize(2 * pageSize))
      ensures !InitFits(pageSize) ==> r == WildWrite(WORD_SPAN - 1) && mem.brk == region
    {
      hide Quiescent, Rep, AdjustByteSize, FreshHeap, InitHeap, CanInit, MemLib.Mapped, MemLib.InHeap;
      mem.MemInit(region);
      ClearLists();
      FirstIncrement(pageSize);
      hide ToInt, InitFits;
      adjustedPageSize := AdjustByteSize(2 * pageSize);
      var sbrk := mem.MemSbrk(ToInt(adjustedPageSize + 16));
      heapStart := ToPointer(sbrk);
      if heapStart == 0 {
        return Refused;
      }
      heapEnd := mem.MemHeapHi();
      StartWord();
      if !mem.InHeap(heapStart) {
        return WildWrite(heapStart);
      }
      InitRoom(region, adjustedPageSize);
      WriteFirstBlock();
      ListFirstBlock();
      WordsOfInit(region, adjustedPageSize);
      r := Ready;
    }

    /** The first word is below the break once there is a heap, and the last address never is. */
    lemma StartWord()
      requires mem.Placed()
      ensures mem.startBrk < mem.brk ==> mem.InHeap(mem.startBrk)
      ensures !mem.InHeap(WORD_SPAN - 1)
    {
      AlignedDown(mem.startBrk);
    }

    /** The words around the first block: its header has the PREVALLOC bit set, the epilogue has it clear. */
    ghost predicate InitialWords(region: int, page: int)
      reads mem
    {
      && mem.brk == region + 16 + page && mem.maxAddr == region + 20 * 1024 * 1024
      && Rd(mem.view, region) == 0x8BADF00D && Rd(mem.view, region + 4) == 11 && Rd(mem.view, region + 8) == 11
      && Rd(mem.view, region + 12) == page + 2 && GetSize(Rd(mem.view, mem.brk - 8)) == page
      && Rd(mem.view, mem.brk - 4) == 0xEA7F00D1
    }

    lemma MaxPlaced()
      requires mem.Placed()
      ensures mem.maxAddr == mem.startBrk + 20 * 1024 * 1024
    {
    }

    lemma WordsOfInit(region: int, page: int)
      requires Valid() && mem.startBrk == region && 0 <= page && h == InitHeap(region + 16, mem.maxAddr, page)
      ensures InitialWords(region, page)
    {
      hide Quiescent, InitHeap, Rep, GetSize, MemLib.Mapped, MemLib.Placed;
      MaxPlaced();
      OneBlock(region + 16, mem.maxAddr, page);
      OneBlockWords(mem.view, freeLists[..], h, page);
    }

    static lemma OneBlock(lo: int, limit: int, page: nat)
      ensures var g := InitHeap(lo, limit, page);
        g.lo == lo && g.hi == lo + page && !g.epi && g.blocks == map[lo := Block(page, false, true)]
    {
      InitExactly(lo, limit, page);
    }

    static lemma OneBlockWords(m: Mem, f: seq<int>, g: Heap, page: int)
      requires Rep(m, f, g) && g.blocks == map[g.lo := Block(page, false, true)] && g.hi == g.lo + page && !g.epi
      ensures Rd(m, g.lo - 16) == 0x8BADF00D && Rd(m, g.lo - 12) == 11 && Rd(m, g.lo - 8) == 11
      ensures Rd(m, g.lo - 4) == page + 2 && GetSize(Rd(m, g.hi - 8)) == page && Rd(m, g.hi - 4) == 0xEA7F00D1
    {
      hide GetSize, Chains;
      assert TagAt(m, g, g.lo);
    }

    /** The first block goes on its list. */
    method ListFirstBlock()
      requires Mapped() && heapStart == mem.startBrk && heapEnd == mem.MemHeapHi()
      requires mem.brk == heapStart + 16 + adjustedPageSize
      requires CanInit(heapStart + 16, mem.maxAddr, adjustedPageSize)
      requires Rep(mem.view, freeLists[..], FreshHeap(heapStart + 16, mem.maxAddr, adjustedPageSize))
      modifies mem.words, mem`view, freeLists, `h
      ensures Valid() && h == InitHeap(heapStart + 16, mem.maxAddr, adjustedPageSize)
    {
      hide Tiled, BitsSound, Indexed, Tags, Chains, FreshHeap, Enlist, AllBitsSet, MemLib.Mapped;
      ghost var lo, limit := heapStart + 16, mem.maxAddr;
      ghost var g := FreshHeap(lo, limit, adjustedPageSize);
      FreshSound(lo, limit, adjustedPageSize);
      FreshFields(lo, limit, adjustedPageSize);
      var i := CalcListIndex(adjustedPageSize);
      AddUnlisted(heapStart + 16, i, g, {lo});
      assert {lo} - {lo} == {};
      h := InitHeap(lo, limit, adjustedPageSize);
      InitQuiescent(lo, limit, adjustedPageSize);
    }

    /** The increment of the first mem_sbrk, passed as an int, is in range exactly when it fits. */
    static lemma FirstIncrement(pageSize: int)
      requires 1 <= pageSize <= LARGEST_PAGE
      ensures var page := AdjustByteSize(2 * pageSize);
        && page % 8 == 0 && 16 <= page && page + 16 < WORD_SPAN
        && (InitFits(pageSize) <==> 0 <= ToInt(page + 16) <= MAX_HEAP)
        && (InitFits(pageSize) ==> ToInt(page + 16) == page + 16)
    {
      AdjustIsLeast(2 * pageSize);
    }

    static lemma InitRoom(region: int, page: int)
      requires 8 <= region && region % 8 == 0 && region + MAX_HEAP < WORD_SPAN
      requires page % 8 == 0 && 16 <= page && page + 16 <= MAX_HEAP
      ensures CanInit(region + 16, region + MAX_HEAP, page)
    {
      AlignedSum(region, 16);
      AlignedSum(region, MAX_HEAP);
    }

    static lemma FreshFields(lo: int, limit: int, page: int)
      requires 0 <= page
      ensures var g := FreshHeap(lo, limit, page);
        && g.lo == lo && g.hi == lo + page && g.limit == limit && g.page == page
        && lo in g.blocks && g.blocks[lo].size == page && |g.lists| == FREELIST_COUNT
        && InitHeap(lo, limit, page) == Enlist(g, lo)
        && Enlist(g, lo).lo == lo && Enlist(g, lo).hi == lo + page
        && Enlist(g, lo).limit == limit && Enlist(g, lo).page == page
    {
    }

    /** All seventeen lists become empty. */
    method ClearLists()
      requires freeLists.Length == FREELIST_COUNT
      modifies freeLists
      ensures forall i :: 0 <= i < FREELIST_COUNT ==> freeLists[..][i] == 0
    {
      for i := 0 to FREELIST_COUNT
        invariant forall j :: 0 <= j < i ==> freeLists[j] == 0
      {
        freeLists[i] := 0;
      }
    }

    /** Prologue, epilogue and the tags of the first free block. */
    method WriteFirstBlock()
      requires Mapped() && heapStart == mem.startBrk && heapEnd == mem.brk - 1
      requires mem.brk == heapStart + adjustedPageSize + 16
      requires CanInit(heapStart + 16, mem.maxAddr, adjustedPageSize)
      requires forall i :: 0 <= i < FREELIST_COUNT ==> freeLists[..][i] == 0
      modifies mem.words, mem`view
      ensures Mapped() && Rep(mem.view, freeLists[..], FreshHeap(heapStart + 16, mem.maxAddr, adjustedPageSize))
    {
      InitWords();
      FirstWordsRep(mem.view, freeLists[..], heapStart + 16, mem.maxAddr, adjustedPageSize);
      hide CanInit, Rep, FreshHeap, FirstWords, MemLib.Mapped, MemLib.InHeap;
      WriteWords();
    }

    /** The six words that mm_init writes. */
    method WriteWords()
      requires mem.Mapped() && heapEnd == heapStart + adjustedPageSize + 15
      requires mem.InHeap(heapStart) && mem.InHeap(heapStart + 4) && mem.InHeap(heapStart + 8)
      requires mem.InHeap(heapStart + 12)
      requires mem.InHeap(heapStart + adjustedPageSize + 12) && mem.InHeap(heapStart + adjustedPageSize + 8)
      requires adjustedPageSize % 4 == 0 && 0 <= adjustedPageSize && adjustedPageSize + PREVALLOC < WORD_SPAN
      modifies mem.words, mem`view
      ensures mem.Mapped() && mem.view == FirstWords(old(mem.view), heapStart, adjustedPageSize)
    {
      hide MemLib.Mapped, MemLib.InHeap, Prologue;
      WritePrologue();
      mem.PutW(heapStart + adjustedPageSize + 12, Pack(EPILOGUE, THISALLOC));
      mem.PutW(heapStart + 12, Pack(adjustedPageSize, PREVALLOC));
      mem.PutW(heapEnd - 4 + 1 - 4, Pack(adjustedPageSize, PREVALLOC));
    }

    /** The alignment word and the two words of the prologue. */
    method WritePrologue()
      requires mem.Mapped() && mem.InHeap(heapStart) && mem.InHeap(heapStart + 4) && mem.InHeap(heapStart + 8)
      modifies mem.words, mem`view
      ensures mem.Mapped() && mem.view == Prologue(old(mem.view), heapStart)
    {
      hide MemLib.Mapped, MemLib.InHeap;
      mem.PutW(heapStart, ALIGNMENT_WORD);
      mem.PutW(heapStart + 4, Pack(8, THISALLOC + PREVALLOC));
      mem.PutW(heapStart + 8, Pack(8, THISALLOC + PREVALLOC));
    }

    lemma InitWords()
      requires heapStart == mem.startBrk && mem.brk == heapStart + adjustedPageSize + 16
      requires CanInit(heapStart + 16, mem.maxAddr, adjustedPageSize)
      ensures mem.InHeap(heapStart) && mem.InHeap(heapStart + 4)
      ensures mem.InHeap(heapStart + 8) && mem.InHeap(heapStart + 12)
      ensures mem.InHeap(heapStart + adjustedPageSize + 12) && mem.InHeap(heapStart + adjustedPageSize + 8)
      ensures adjustedPageSize % 4 == 0 && adjustedPageSize + PREVALLOC < WORD_SPAN && 16 <= adjustedPageSize
    {
      AlignedSum(heapStart + 16, adjustedPageSize);
      AlignedSum(heapStart + 16, 8);
      AlignedSum(heapStart + 16 + adjustedPageSize, 8);
      AlignedDown(heapStart + 16);
      AlignedDown(heapStart + 8);
      AlignedDown(heapStart + adjustedPageSize + 8);
      AlignedDown(adjustedPageSize);
    }

    /** allocate and then remove_from_list once more, as mm_malloc does with a block that find_fit
        returned: the second call is without effect on the heap value, unless the adjusted size is zero. */
    method AllocateFound(bp: int, i: int, adj: int, ghost g: Heap) returns (ghost hm: Mem)
      requires Inv(g, {}) && IsFree(g, bp) && g.blocks[bp].size >= 0
      requires if adj == 0 then AllBitsSet(g) else Fits(g, bp, adj)
      requires |g.lists| == FREELIST_COUNT && 0 <= i < FREELIST_COUNT && g.lists[i] != [] && g.lists[i][0] == bp
      modifies mem.words, mem`view, freeLists
      ensures adj != 0 ==> Inv(Allocated(g, bp, adj), {}) && Kept(old(mem.view), mem.view, g)
      ensures adj == 0 ==> LastOfList(Relisted(g, bp), bp) && i == ClassOf(g, bp)
      ensures adj == 0 ==>
        var c := Relisted(g, bp);
        && Dented(if StaysListed(c, bp, i) then c else Unlist(c, bp), hm, bp)
        && Rd(mem.view, bp - 8) == DENT && Kept(old(mem.view), hm, g)
    {
      hide Tiled, BitsSound, Indexed, Rep, Kept, Allocated, Relisted, Unlinked, StaysListed, ButFor, LastOfList;
      ghost var m, f := mem.view, freeLists[..];
      HeadLinks(bp, i, adj, g);
      hm := Allocate(bp, adj, g);
      ghost var m1, m2 := hm, mem.view;
      if adj == 0 {
        RelistedLast(g, bp);
        RelistedSound(g, bp);
        SecondLinks(bp, i, Relisted(g, bp), m1);
      } else {
        AllocatedBlocks(g, bp, adj);
        StaleStep(m2, freeLists[..], Allocated(g, bp, adj), bp, i);
      }
      RemoveFromList(bp, i);
      if adj == 0 {
        hm := Unlinked(m1, bp);
        KeptSame(m1, hm, Relisted(g, bp), g);
        KeptTrans(m, m1, hm, g);
      } else {
        KeptAllocated(m2, mem.view, g, bp, adj);
        KeptTrans(m, m2, mem.view, g);
      }
    }

    /** The links of a list head, which stay in the block when it is allocated. */
    lemma HeadLinks(bp: int, i: int, adj: int, g: Heap)
      requires Inv(g, {}) && IsFree(g, bp) && |g.lists| == FREELIST_COUNT && 0 <= i < FREELIST_COUNT
      requires g.lists[i] != [] && g.lists[i][0] == bp
      ensures g.blocks[bp].size >= 0 && i == ClassOf(g, bp) && bp > 0 && mem.InHeap(bp) && mem.InHeap(bp + 4)
      ensures Rd(mem.view, bp + 4) == 0 && Rd(mem.view, bp) != bp
      ensures Rd(mem.view, bp) != 0 ==> mem.InHeap(Rd(mem.view, bp) + 4)
      ensures Rd(mem.view, bp) != 0 && Fits(g, bp, adj) ==>
        |Allocated(g, bp, adj).lists| == FREELIST_COUNT && HeadOrBuried(Allocated(g, bp, adj), i, Rd(mem.view, bp))
    {
      hide Tiled, BitsSound, Indexed, Tags, Chains, Allocated;
      var l := g.lists[i];
      HeadHasNoPrev(mem.view, freeLists[..], g, i);
      Listed(g, {}, i, bp);
      BlockInHeap(g, bp);
      if |l| > 1 {
        Listed(g, {}, i, l[1]);
        BlockInHeap(g, l[1]);
        HeadsDiffer(g, i);
        if Fits(g, bp, adj) {
          StaleSuccessor(g, bp, adj, i);
        }
      }
    }

    /** The second remove_from_list on a block that was given back. */
    lemma SecondLinks(bp: int, i: int, c: Heap, m: Mem)
      requires Dented(c, m, bp) && Sound(c, {}) && LastOfList(c, bp) && 0 <= i < FREELIST_COUNT
      ensures LinksMapped(bp)
      ensures var m' := Unlinked(m, bp); var v' := Unlinked(mem.view, bp);
        && StillBut(m, mem.view, m', v', bp - 8)
        && Rep(m', UnlinkedHeads(v', freeLists[..], i, bp), if StaysListed(c, bp, i) then c else Unlist(c, bp))
        && Kept(m, m', c)
    {
      hide Tiled, BitsSound, Indexed, Tags, Chains, Kept, Unlinked, ButFor;
      LinksDented(bp, c, {}, m, bp);
      UnlinkBut(m, mem.view, freeLists[..], i, c, {}, bp, bp);
      SecondUnlink(m, freeLists[..], c, bp, i);
    }

    static lemma HeadsDiffer(g: Heap, i: int)
      requires Indexed(g, {}) && 0 <= i < FREELIST_COUNT && |g.lists[i]| > 1
      ensures g.lists[i][0] != g.lists[i][1]
    {
    }

    static lemma KeptAllocated(m: Mem, m': Mem, g: Heap, p: int, adj: int)
      requires Sound(g, {}) && IsFree(g, p) && Fits(g, p, adj) && Kept(m, m', Allocated(g, p, adj))
      ensures Kept(m, m', g)
    {
      AllocatedBlocks(g, p, adj);
      hide Tiled, BitsSound, Indexed, Allocated;
      forall q | IsAlloc(g, q)
        ensures SameWords(m, m', q, End(g, q) - 4)
      {
        assert IsAlloc(Allocated(g, p, adj), q);
      }
    }

    static lemma KeptExtended(m: Mem, m': Mem, g: Heap, n: int)
      requires Sound(g, {}) && CanGrow(g, n) && Kept(m, m', Extended(g, n))
      ensures Kept(m, m', g)
    {
      ExtendedBlocks(g, n);
      hide Tiled, BitsSound, Indexed, Extended;
      forall q | IsAlloc(g, q)
        ensures SameWords(m, m', q, End(g, q) - 4)
      {
        assert IsAlloc(Extended(g, n), q);
      }
    }

    static lemma RepReq(m: Mem, f: seq<int>, g: Heap, req: map<int, int>)
      requires Rep(m, f, g)
      ensures Rep(m, f, g.(req := req))
    {
    }

    static lemma ContentsAfterMalloc(m: Mem, m': Mem, g: Heap, size: int)
      requires Quiescent(g) && 0 <= size <= MAX_REQUEST && Kept(m, m', g) && Malloc(g, size).1 != 0
      ensures var (g', p) := Malloc(g, size);
        Quiescent(g') && p in g'.req && LiveContents(m', g') == LiveContents(m, g)[p := Bytes(m', p, size)]
    {
      hide Malloc, Sound, Kept;
      MallocKeeps(g, size);
      var (g', p) := Malloc(g, size);
      forall q | q in g.req
        ensures Bytes(m', q, g'.req[q]) == Bytes(m, q, g.req[q])
      {
        KeptBytes(m, m', g, q);
      }
    }

    /** mm_malloc, for every size_t.  Up to 2^32-12 bytes the new heap value and the result are those of
        the specification, no byte of any live allocation changes, and a NULL result leaves everything as
        it was.  The last three sizes are served like twelve bytes.  The sizes between, which wrap to zero,
        return a block that is still free, and overwrite the word before its header.  Whether the invariant
        holds after that is decided by the heap before the call. */
    method MmMalloc(size: Word) returns (bp: int)
      requires Valid()
      modifies mem.words, mem`view, mem`brk, freeLists, `heapEnd, `h
      ensures !WrapsToZero(size) ==> Valid() && (h, bp) == Malloc(old(h), Served(size))
      ensures !WrapsToZero(size) ==> Kept(old(mem.view), mem.view, old(h))
      ensures !WrapsToZero(size) && bp != 0 ==>
        bp in h.req && Contents() == old(Contents())[bp := Bytes(mem.view, bp, Served(size))]
      ensures bp == 0 ==> Valid() && h == old(h) && mem.view == old(mem.view) && freeLists[..] == old(freeLists[..])
      ensures WrapsToZero(size) ==> (h, bp) == MallocNone(old(h))
      ensures WrapsToZero(size) && bp != 0 ==> Damaged(old(mem.view), old(h), bp)
      ensures WrapsToZero(size) ==> (Valid() <==> Survives(old(h)))
    {
      hide Quiescent, Rep, Kept, AdjustByteSize, Malloc, MallocNone, Damaged, LiveContents, Extended, FindFit, Survives;
      ghost var g, m := h, mem.view;
      if size == 0 {
        KeptRefl(m, g);
        MallocZero(g);
        return 0;
      }
      var adj := AdjustByteSize(size);
      Prepared(g, size);
      var i;
      bp, i := FindFitBlock(adj, g);
      if bp != 0 {
        TakeFound(bp, i, adj, size);
        MallocDone(m, g, size, bp);
        return;
      }
      bp := ExtendHeap(Max(adj, adjustedPageSize), g);
      if bp == 0 {
        Exhausted(g, size);
        KeptRefl(m, g);
        return;
      }
      TakeExtension(bp, adj, size, g, m);
      MallocDone(m, g, size, bp);
    }

    static lemma MallocZero(g: Heap)
      requires Quiescent(g)
      ensures Malloc(g, 0) == (g, 0)
    {
    }

    /** What mm_malloc needs to know of the adjusted size. */
    static lemma Prepared(g: Heap, size: Word)
      requires Quiescent(g) && size >= 1
      ensures var adj := AdjustByteSize(size); var n := Max(adj, g.page);
        && Sound(g, {}) && |g.lists| == FREELIST_COUNT && n % 8 == 0 && 16 <= n < WORD_SPAN
        && var f := FindFit(g, adj, ListIndex(adj));
           f != 0 ==> IsFree(g, f) && g.blocks[f].size >= 0 && (adj == 0 || Fits(g, f, adj))
      ensures AdjustByteSize(size) == 0 <==> WrapsToZero(size)
    {
      hide Tiled, BitsSound, Indexed, AllBitsSet, Live;
      SeventeenLists(g, {});
      ServedAdjusts(size);
      var adj := AdjustByteSize(size);
      FindFitLowest(g, adj, ListIndex(adj));
      PageOk(g);
      if adj != 0 {
        AdjustIsLeast(Served(size));
        PageFits(g, adj);
      }
    }

    static lemma PageOk(g: Heap)
      requires Tiled(g)
      ensures g.page % 8 == 0 && 16 <= g.page < WORD_SPAN
    {
    }

    /** A NULL from extend_heap is a NULL from mm_malloc. */
    static lemma Exhausted(g: Heap, size: Word)
      requires Quiescent(g) && size >= 1 && |g.lists| == FREELIST_COUNT
      requires var adj := AdjustByteSize(size); var n := Max(adj, g.page);
        && FindFit(g, adj, ListIndex(adj)) == 0
        && (g.hi + n <= g.limit ==> Sound(g, {}) && CanGrow(g, n) && ExtensionPoint(g, n) == 0)
      ensures if WrapsToZero(size) then MallocNone(g) == (g, 0) && Survives(g) else Malloc(g, Served(size)) == (g, 0)
    {
      hide Tiled, BitsSound, Indexed, AllBitsSet, Live, AdjustByteSize;
      ServedAdjusts(size);
      PageOk(g);
      var n := Max(AdjustByteSize(size), g.page);
      if g.hi + n <= g.limit {
        ExtensionPositive(g, n);
      }
    }

    /** The end of mm_malloc with a block that find_fit returned. */
    method TakeFound(bp: int, i: int, adj: int, ghost size: Word)
      requires Valid() && Sound(h, {}) && |h.lists| == FREELIST_COUNT && size >= 1 && adj == AdjustByteSize(size)
      requires bp == FindFit(h, adj, ListIndex(adj)) && bp != 0 && IsFree(h, bp) && h.blocks[bp].size >= 0
      requires (adj == 0 <==> WrapsToZero(size)) && (adj == 0 || Fits(h, bp, adj))
      requires 0 <= i < FREELIST_COUNT && h.lists[i] != [] && h.lists[i][0] == bp
      modifies mem.words, mem`view, freeLists, `h
      ensures !WrapsToZero(size) ==> Valid() && (h, bp) == Malloc(old(h), Served(size))
      ensures !WrapsToZero(size) ==> Kept(old(mem.view), mem.view, old(h))
      ensures WrapsToZero(size) ==> (h, bp) == MallocNone(old(h)) && Damaged(old(mem.view), old(h), bp)
    {
      hide Sound, Rep, Kept, Allocated, Relisted, Live, StaysListed, AdjustByteSize, Damaged, AllBitsSet;
      ghost var g, m := h, mem.view;
      ServedAdjusts(size);
      ghost var hm := AllocateFound(bp, i, adj, g);
      if adj == 0 {
        h := MallocNone(g).0;
        DamageDone(m, g, bp, hm);
      } else {
        MallocKeeps(g, Served(size));
        h := Malloc(g, Served(size)).0;
        RepReq(mem.view, freeLists[..], Allocated(g, bp, adj), h.req);
        AllocatedBlocks(g, bp, adj);
      }
    }

    /** The end of mm_malloc with a block that extend_heap returned; `m` and `g` are from before it. */
    method TakeExtension(bp: int, adj: int, ghost size: Word, ghost g: Heap, ghost m: Mem)
      requires Quiescent(g) && |g.lists| == FREELIST_COUNT && size >= 1 && adj == AdjustByteSize(size)
      requires FindFit(g, adj, ListIndex(adj)) == 0 && (adj == 0 <==> WrapsToZero(size))
      requires CanGrow(g, Max(adj, g.page)) && bp == ExtensionPoint(g, Max(adj, g.page)) && bp != 0
      requires Inv(Extended(g, Max(adj, g.page)), {}) && Kept(m, mem.view, g)
      modifies mem.words, mem`view, freeLists, `h
      ensures !WrapsToZero(size) ==> Valid() && (h, bp) == Malloc(g, Served(size)) && Kept(m, mem.view, g)
      ensures WrapsToZero(size) ==> (h, bp) == MallocNone(g) && Damaged(m, g, bp)
    {
      hide Tiled, BitsSound, Indexed, Rep, Kept, Allocated;
      hide Extended, Relisted, Live, AdjustByteSize, Damaged, AllBitsSet;
      ghost var n, m1 := Max(adj, g.page), mem.view;
      ghost var e := Extended(g, n);
      ServedAdjusts(size);
      PageOk(g);
      ExtendedSound(g, n);
      ExtendedBlocks(g, n);
      SeventeenLists(e, {});
      ExtensionFits(g, size);
      ghost var hm := Allocate(bp, adj, e);
      if adj == 0 {
        h := MallocNone(g).0;
        KeptExtended(m1, hm, g, n);
        KeptTrans(m, m1, hm, g);
        DamageDone(m, g, bp, hm);
      } else {
        KeptExtended(m1, mem.view, g, n);
        KeptTrans(m, m1, mem.view, g);
        MallocKeeps(g, Served(size));
        h := Malloc(g, Served(size)).0;
        RepReq(mem.view, freeLists[..], Allocated(e, bp, adj), h.req);
        AllocatedBlocks(e, bp, adj);
      }
    }

    static lemma ExtensionFits(g: Heap, size: Word)
      requires Sound(g, {}) && size >= 1 && CanGrow(g, Max(AdjustByteSize(size), g.page))
      ensures var adj := AdjustByteSize(size); var n := Max(adj, g.page);
        adj == 0 || Fits(Extended(g, n), ExtensionPoint(g, n), adj)
    {
      hide Tiled, BitsSound, Indexed, Extended, AdjustByteSize;
      ServedAdjusts(size);
      if AdjustByteSize(size) != 0 {
        AdjustIsLeast(Served(size));
      }
      ExtendedSound(g, Max(AdjustByteSize(size), g.page));
    }

    /** What the caller of mm_malloc can conclude. */
    lemma MallocDone(m: Mem, g: Heap, size: Word, bp: int)
      requires Quiescent(g) && size >= 1 && bp != 0
      requires if WrapsToZero(size) then (h, bp) == MallocNone(g) && Damaged(m, g, bp)
               else Quiescent(h) && (h, bp) == Malloc(g, Served(size)) && Kept(m, mem.view, g)
      ensures !WrapsToZero(size) ==>
        bp in h.req && LiveContents(mem.view, h) == LiveContents(m, g)[bp := Bytes(mem.view, bp, Served(size))]
      ensures WrapsToZero(size) ==> (Valid() <==> Survives(g))
    {
      hide Sound, AllBitsSet, Live, Kept, Malloc, MallocNone, Damaged, Survives, LiveContents;
      if WrapsToZero(size) {
        DamagedValidIff(m, g, bp);
      } else {
        ContentsAfterMalloc(m, mem.view, g, Served(size));
      }
    }

    static lemma KeptSame(m: Mem, m': Mem, h: Heap, g: Heap)
      requires Kept(m, m', h) && forall q :: IsAlloc(g, q) ==> IsAlloc(h, q) && h.blocks[q] == g.blocks[q]
      ensures Kept(m, m', g)
    {
    }

    // ---- after a size that wraps to zero -------------------------------------------------------

    /** With `w` in the word before the header of `bp`, the memory would represent `h`, and the allocated
        payloads would be as in memory `m` of heap `g`. */
    ghost predicate MendedBy(m: Mem, g: Heap, bp: int, w: Word)
      reads this, mem, mem.words, freeLists
    {
      Rep(mem.view[bp - 8 := w], freeLists[..], h) && Kept(m, mem.view[bp - 8 := w], g)
    }

    /** What is left of memory `m` of heap `g` when a block `bp` of no bytes has been handed out. */
    ghost predicate Damaged(m: Mem, g: Heap, bp: int)
      reads this, mem, mem.words, freeLists
    {
      && Mapped() && Wired(h) && Rd(mem.view, bp - 8) == DENT
      && exists w: Word :: MendedBy(m, g, bp, w)
    }

    lemma DamageDone(m: Mem, g: Heap, bp: int, hm: Mem)
      requires Dented(h, hm, bp) && Rd(mem.view, bp - 8) == DENT && Kept(m, hm, g)
      ensures Damaged(m, g, bp)
    {
      var w := Rd(hm, bp - 8);
      var m' := mem.view[bp - 8 := w];
      forall a
        ensures Rd(m', a) == Rd(hm, a)
      {
        assert a != bp - 8 ==> Rd(mem.view, a) == Rd(hm, a);
      }
      SameRead(hm, m', freeLists[..], h);
      hide Rep;
      assert Kept(m, m', g);
      assert MendedBy(m, g, bp, w);
    }

    /** The invariant holds again exactly when the heap before the call survives. */
    lemma DamagedValidIff(m: Mem, g: Heap, bp: int)
      requires Quiescent(g) && (h, bp) == MallocNone(g) && bp != 0 && Damaged(m, g, bp)
      ensures Valid() <==> Survives(g)
    {
      hide Tiled, BitsSound, Indexed, Tags, Chains, AllBitsSet, Live, MallocNone, Survives, AllocBefore, Kept;
      MallocNoneFrees(g);
      SurvivesIff(g);
      var w: Word :| MendedBy(m, g, bp, w);
      var m', x := mem.view[bp - 8 := w], if Sound(h, {}) then {} else {bp};
      DentHarmlessIff(m', freeLists[..], h, x, bp);
      SameRep(mem.view, m'[bp - 8 := DENT], freeLists[..], h);
    }

    static lemma SameRep(m: Mem, m': Mem, f: seq<int>, g: Heap)
      requires forall a :: Rd(m, a) == Rd(m', a)
      ensures Rep(m, f, g) <==> Rep(m', f, g)
    {
      hide Tags, Chains;
      if Rep(m, f, g) {
        SameRead(m, m', f, g);
      }
      if Rep(m', f, g) {
        SameRead(m', m, f, g);
      }
    }

    /** Every byte of a live allocation outside the overwritten word is as it was. */
    lemma DamagedBytes(m: Mem, g: Heap, bp: int, q: int, a: int)
      requires Quiescent(g) && Damaged(m, g, bp) && bp % 8 == 0 && q in g.req
      requires q <= a < q + g.req[q] && !(bp - 8 <= a < bp - 4)
      ensures RdByte(mem.view, a) == RdByte(m, a)
    {
      hide Tiled, BitsSound, Indexed, Rep, AllBitsSet;
      RequestFits(g, q);
      assert IsAlloc(g, q);
      var w: Word :| MendedBy(m, g, bp, w);
      AlignedDown(q);
      WordBelow(a, q);
      AlignedDown(bp);
      var b := a - a % 4;
      assert Rd(mem.view[bp - 8 := w], b) == Rd(m, b);
      WordsApart(a, bp - 8);
    }

    /** free_block: the tags of the block are rewritten without THISALLOC. */
    method FreeBlock(bp: int, ghost g: Heap)
      requires Inv(g, {}) && IsAlloc(g, bp)
      modifies mem.words, mem`view
      ensures Inv(Released(g, bp), {bp})
      ensures Kept(old(mem.view), mem.view, Released(g, bp))
    {
      hide Tiled, BitsSound, Indexed, Tags, Chains, Kept, Wrote;
      BlockInHeap(g, bp);
      BlockSpan(g, bp);
      ReadTags(mem.view, g, bp);
      var isPrevAlloc := GetPrevAlloc(mem.GetW(bp - 4));
      var size := GetSize(mem.GetW(bp - 4));
      PutTags(bp, size, isPrevAlloc, End(g, bp));
      FreeStep(old(mem.view), mem.view, freeLists[..], g, bp, size + isPrevAlloc);
    }

    /** mm_free: exactly the freed allocation leaves the live map; no byte of another one changes. */
    method MmFree(p: int)
      requires Valid() && p in h.req
      modifies mem.words, mem`view, freeLists, `h
      ensures Valid() && IsAlloc(old(h), p) && h == Freed(old(h), p)
      ensures Contents() == old(Contents()) - {p}
    {
      hide Tiled, BitsSound, Indexed, Tags, Chains, Kept, Coalesced, AllBitsSet, LiveContents;
      ghost var g, m := h, mem.view;
      assert IsAlloc(g, p);
      FreedKeeps(g, p);
      FreeBlock(p, g);
      ghost var m1 := mem.view;
      SelfBut(m1, p - 8);
      ghost var hm;
      var bp;
      bp, hm := Coalesce(p, Released(g, p), m1);
      KeptTrans(m, m1, mem.view, Released(g, p));
      h := Freed(g, p);
      ContentsAfterFree(m, mem.view, g, p);
    }

    static lemma ContentsAfterFree(m: Mem, m': Mem, g: Heap, p: int)
      requires Quiescent(g) && p in g.req && IsAlloc(g, p) && Kept(m, m', Released(g, p))
      ensures Quiescent(Freed(g, p)) && LiveContents(m', Freed(g, p)) == LiveContents(m, g) - {p}
    {
      hide Sound, AllBitsSet, Freed;
      FreedKeeps(g, p);
      assert KeptBut(m, m', g, p) by {
        forall q | IsAlloc(g, q) && q != p
          ensures SameWords(m, m', q, End(g, q) - 4)
        {
          assert IsAlloc(Released(g, p), q);
        }
      }
      forall q | q in g.req && q != p
        ensures Bytes(m', q, g.req[q]) == Bytes(m, q, g.req[q])
      {
        KeptButBytes(m, m', g, p, q);
      }
    }

    /** memset over a live allocation, as the driver does. */
    method Fill(p: int, b: Byte, n: int)
      requires Valid() && p in h.req && n == h.req[p]
      modifies mem.words, mem`view
      ensures Valid() && h == old(h)
      ensures Contents() == old(Contents())[p := seq(h.req[p], _ => b)]
    {
      hide Tiled, BitsSound, Indexed, Tags, Chains, AllBitsSet, RdByte;
      ghost var m := mem.view;
      RequestFits(h, p);
      BoundsOf(h);
      assert IsAlloc(h, p);
      mem.MemSet(p, b, n);
      PayloadWrite(m, mem.view, freeLists[..], h, p, n);
      forall q | q in h.req && q != p
        ensures Bytes(mem.view, q, h.req[q]) == Bytes(m, q, h.req[q])
      {
        KeptButBytes(m, mem.view, h, p, q);
      }
      assert Bytes(mem.view, p, n) == seq(n, _ => b);
    }

    /** mm_realloc: malloc, copy, free, for every size_t.  The new allocation starts with the old contents
        as far as both reach; NULL leaves the old allocation and everything else as it was.  The model
        stops before a copy that would write past the payload handed out, which up to 2^32-12 bytes never
        happens; the state is then that after mm_malloc. */
    method MmRealloc(p: int, size: Word) returns (r: int, overrun: bool)
      requires Valid() && p in h.req
      modifies mem.words, mem`view, mem`brk, freeLists, `heapEnd, `h
      ensures p in old(h).blocks && (overrun <==> CopyOverruns(old(h), p, size))
      ensures size <= MAX_REQUEST ==> !overrun
      ensures !overrun && !WrapsToZero(size) ==> Valid() && (h, r) == Realloc(old(h), p, Served(size))
      ensures overrun && !WrapsToZero(size) ==> Valid() && (h, r) == Malloc(old(h), Served(size))
      ensures overrun && !WrapsToZero(size) ==> Kept(old(mem.view), mem.view, old(h))
      ensures overrun && WrapsToZero(size) ==> (h, r) == MallocNone(old(h)) && Damaged(old(mem.view), old(h), r)
      ensures r == 0 ==> Valid() && h == old(h) && mem.view == old(mem.view) && freeLists[..] == old(freeLists[..])
      ensures r != 0 && !overrun ==> Valid() && r in h.req && Contents() - {r} == old(Contents()) - {p}
      ensures r != 0 && !overrun ==> var k := Min(old(h).req[p], Served(size));
        Bytes(mem.view, r, k) == Bytes(old(mem.view), p, k)
    {
      hide Sound, Rep, Kept, AllBitsSet, Malloc, Freed, KeptBut, MallocNone, Damaged;
      ghost var g, m, c, n := h, mem.view, Contents(), Served(size);
      CopyOverrunsIff(g, p, size);
      MallocKeeps(g, n);
      r := MmMalloc(size);
      if r == 0 {
        return r, false;
      }
      HeaderAfter(m, g, size, r, p);
      var copySize := CopyLength(p, size);
      var payload := PayloadLength(r, size);
      if copySize > payload {
        return r, true;
      }
      ghost var g1, m1, c1 := h, mem.view, Contents();
      assert c1[p] == c[p];
      ghost var k := Min(g.req[p], n);
      RequestFits(h, p);
      FreedKeeps(g1, p);
      MoveContents(r, p, copySize, size, k);
      Moved(c, c1, Contents(), p, r);
      Prefixes(m, m1, p, p, g.req[p], k);
      return r, false;
    }

    /** The copy and the free of mm_realloc: the first `k` bytes, as far as both requests reach, move. */
    method MoveContents(r: int, p: int, copySize: int, size: int, ghost k: nat)
      requires Valid() && p in h.req && r in h.req && p != r && 0 <= size
      requires p in h.blocks && r in h.blocks && copySize == Min(h.blocks[p].size, size)
      requires copySize <= h.blocks[r].size - 4 && k <= copySize && k <= h.req[r]
      modifies mem.words, mem`view, freeLists, `h
      ensures Valid() && IsAlloc(old(h), p) && h == Freed(old(h), p)
      ensures Contents() - {r} == old(Contents()) - {r} - {p}
      ensures Bytes(mem.view, r, k) == Bytes(old(mem.view), p, k)
    {
      hide Quiescent, Rep, KeptBut, Freed;
      ghost var g, m := h, mem.view;
      FreedKeeps(g, p);
      ContentsAt(r);
      CopyPayload(r, p, copySize, size);
      ghost var m1, c1 := mem.view, Contents();
      ContentsAt(r);
      MmFree(p);
      ContentsAt(r);
      assert c1 - {p} - {r} == c1 - {r} - {p};
      Prefixes(m, m1, p, r, copySize, k);
      Prefixes(m1, mem.view, r, r, g.req[r], k);
    }

    lemma ContentsAt(r: int)
      requires Valid() && r in h.req
      ensures h.req[r] >= 0 && r in Contents() && Contents()[r] == Bytes(mem.view, r, h.req[r])
    {
    }

    /** mm_malloc leaves the header of a live block alone. */
    lemma HeaderAfter(m: Mem, g: Heap, size: Word, r: int, p: int)
      requires Quiescent(g) && p in g.req && r != 0 && size >= 1
      requires if WrapsToZero(size) then (h, r) == MallocNone(g) && Damaged(m, g, r)
               else Valid() && (h, r) == Malloc(g, Served(size))
      ensures mem.Mapped() && mem.InHeap(p - 4) && p in g.blocks && g.blocks[p].size >= 16
      ensures GetSize(Rd(mem.view, p - 4)) == g.blocks[p].size
      ensures !WrapsToZero(size) ==> p in h.blocks && h.blocks[p] == g.blocks[p].(prev := h.blocks[p].prev)
    {
      hide Tiled, BitsSound, Indexed, Tags, Chains, AllBitsSet, Malloc, MallocNone, Kept;
      assert IsAlloc(g, p);
      BlockSize(g, p);
      if WrapsToZero(size) {
        MallocNoneFrees(g);
        assert IsAlloc(h, p);
        BlockInHeap(h, p);
        DentApart(h, r, p);
        var w: Word :| MendedBy(m, g, r, w);
        ReadTags(mem.view[r - 8 := w], h, p);
      } else {
        Runs.MallocSizes(g, Served(size), p);
        BlockInHeap(h, p);
        ReadTags(mem.view, h, p);
      }
    }

    /** The bytes that mm_malloc has handed out at `r`: those behind the header, or none. */
    method PayloadLength(r: int, size: Word) returns (n: int)
      requires !WrapsToZero(size) ==> Valid() && r in h.req
      ensures WrapsToZero(size) ==> n == 0
      ensures !WrapsToZero(size) ==> r in h.blocks && n == h.blocks[r].size - 4
    {
      hide BitsSound, Indexed, Chains, Tiled, Tags;
      if WrapsToZero(size) {
        return 0;
      }
      assert IsAlloc(h, r);
      BlockInHeap(h, r);
      ReadTags(mem.view, h, r);
      n := GetSize(mem.GetW(r - 4)) - 4;
    }

    /** Adding `r`, changing it and removing `p` leaves the rest of the map alone. */
    static lemma Moved(c: map<int, seq<int>>, c1: map<int, seq<int>>, c2: map<int, seq<int>>, p: int, r: int)
      requires r !in c && r in c1 && c1 == c[r := c1[r]] && c2 - {r} == c1 - {r} - {p}
      ensures c2 - {r} == c - {p}
    {
      assert c1 - {r} == c;
    }

    static lemma Prefixes(m: Mem, m': Mem, p: int, q: int, n: nat, k: nat)
      requires k <= n && Bytes(m, p, n) == Bytes(m', q, n)
      ensures Bytes(m, p, k) == Bytes(m', q, k)
    {
      hide RdByte;
      BytesPrefix(m, p, n, k);
      BytesPrefix(m', q, n, k);
    }

    /** GET_THISSIZE(oldptr), cut down to the new size. */
    method CopyLength(p: int, size: int) returns (n: int)
      requires mem.Mapped() && mem.InHeap(p - 4)
      ensures n == Min(GetSize(Rd(mem.view, p - 4)), size)
    {
      n := GetSize(mem.GetW(p - 4));
      if size < n {
        n := size;
      }
    }

    /** memcpy between two live allocations; it may read the header behind the old payload, but it
        writes no further than the new request reaches. */
    method CopyPayload(r: int, p: int, n: int, size: int)
      requires Valid() && p in h.req && r in h.req && p != r && 0 <= size
      requires p in h.blocks && r in h.blocks && n == Min(h.blocks[p].size, size) && n <= h.blocks[r].size - 4
      modifies mem.words, mem`view
      ensures Valid() && 0 <= n <= size && OutsideSame(old(mem.view), mem.view, r, n)
      ensures forall a :: RdByte(mem.view, a) == RdByte(old(mem.view), if r <= a < r + n then p + (a - r) else a)
      ensures Bytes(mem.view, r, n) == Bytes(old(mem.view), p, n)
      ensures KeptBut(old(mem.view), mem.view, h, r)
      ensures Contents() - {r} == old(Contents()) - {r}
    {
      hide BitsSound, Indexed, Tags, Chains, AllBitsSet, RdByte;
      ghost var m := mem.view;
      RequestFits(h, p);
      RequestFits(h, r);
      assert IsAlloc(h, r);
      mem.MemCpy(r, p, n);
      hide Tiled;
      PayloadWrite(m, mem.view, freeLists[..], h, r, n);
      forall q | q in h.req && q != r
        ensures Bytes(mem.view, q, h.req[q]) == Bytes(m, q, h.req[q])
      {
        KeptButBytes(m, mem.view, h, r, q);
      }
    }

    // ---- mm_check ----------------------------------------------------------------------------

    /** The checks of mm_check on list `i`: every node is marked free and below the size guess. */
    method CheckList(i: int) returns (ok: bool)
      requires Valid() && 0 <= i < FREELIST_COUNT && |h.lists| == FREELIST_COUNT
      ensures ok <==> forall p :: p in h.lists[i] ==> p in h.blocks && h.blocks[p].size < MAX_BLOCK_ALLOCSIZE
    {
      hide Tiled, BitsSound, Indexed, Tags, Chains, AllBitsSet, Live;
      ghost var l := h.lists[i];
      ChainOf(mem.view, freeLists[..], h.lists, i);
      var bp := freeLists[i];
      ghost var k := 0;
      while bp != 0
        invariant 0 <= k <= |l| && bp == (if k < |l| then l[k] else 0)
        invariant forall j :: 0 <= j < k ==> l[j] in h.blocks && h.blocks[l[j]].size < MAX_BLOCK_ALLOCSIZE
        decreases |l| - k
      {
        Listed(h, {}, i, l[k]);
        BlockInHeap(h, bp);
        ReadTags(mem.view, h, bp);
        if GetAlloc(mem.GetW(bp - 4)) != 0 {
          return false;
        }
        if GetSize(mem.GetW(bp - 4)) >= MAX_BLOCK_ALLOCSIZE {
          assert l[k] in l;
          return false;
        }
        assert NodeAt(mem.view, l, k);
        bp := mem.GetW(bp);
        k := k + 1;
      }
      if k < |l| {
        Listed(h, {}, i, l[k]);
        BlockInHeap(h, l[k]);
      }
      return true;
    }

    /** The walk of mm_check from the first block to the end of the heap. */
    method CheckWalk() returns (ok: bool)
      requires Valid()
      ensures ok <==> forall p :: p in h.blocks ==> h.blocks[p].size < MAX_BLOCK_ALLOCSIZE
    {
      hide BitsSound, Indexed, Tags, Chains, AllBitsSet, Live, Tiled;
      FirstBlock(h);
      var bp := heapStart + 16;
      while bp < heapEnd
        invariant bp in h.blocks || bp == h.hi
        invariant forall p :: p in h.blocks && p < bp ==> h.blocks[p].size < MAX_BLOCK_ALLOCSIZE
        decreases h.hi - bp
      {
        WalkOn(h, bp);
        BlockInHeap(h, bp);
        ReadTags(mem.view, h, bp);
        if GetSize(mem.GetW(bp - 4)) >= MAX_BLOCK_ALLOCSIZE {
          return false;
        }
        bp := bp + GetSize(mem.GetW(bp - 4));
      }
      WalkDone(h, bp);
      return true;
    }

    static lemma FirstBlock(g: Heap)
      requires Tiled(g)
      ensures g.lo in g.blocks && forall p :: p in g.blocks ==> g.lo <= p
    {
    }

    static lemma WalkOn(g: Heap, bp: int)
      requires Tiled(g) && (bp in g.blocks || bp == g.hi) && bp < g.hi - 1
      ensures bp in g.blocks && bp < End(g, bp) <= g.hi && (End(g, bp) in g.blocks || End(g, bp) == g.hi)
      ensures forall p :: p in g.blocks && p < End(g, bp) ==> p <= bp
    {
      BlockSize(g, bp);
      AdjoinsAt(g, bp);
    }

    static lemma WalkDone(g: Heap, bp: int)
      requires Tiled(g) && (bp in g.blocks || bp == g.hi) && bp >= g.hi - 1
      ensures forall p :: p in g.blocks ==> p < bp
    {
    }

    /** mm_check: in every state between public calls all its assertions hold, except that a block of
        a million bytes or more trips its guess about the traces. */
    method MmCheck() returns (ok: bool)
      requires Valid()
      ensures ok <==> forall p :: p in h.blocks ==> h.blocks[p].size < 1_000_000
    {
      hide Tiled, BitsSound, Indexed, Tags, Chains, AllBitsSet, Live;
      SeventeenLists(h, {});
      BoundsOf(h);
      if heapEnd != mem.MemHeapHi() || heapEnd >= heapStart + MAX_HEAP {
        return false;
      }
      var i := 0;
      while i < FREELIST_COUNT
        invariant 0 <= i <= FREELIST_COUNT
      {
        var listOk := CheckList(i);
        if !listOk {
          ListedBlocks(h, i);
          return false;
        }
        i := i + 1;
      }
      ok := CheckWalk();
    }

    static lemma ListedBlocks(g: Heap, i: int)
      requires Indexed(g, {}) && 0 <= i < FREELIST_COUNT
      ensures forall p :: p in g.lists[i] ==> p in g.blocks
    {
      forall p | p in g.lists[i]
        ensures p in g.blocks
      {
        Listed(g, {}, i, p);
      }
    }
  }
}
