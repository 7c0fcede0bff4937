/** The heap of mm.c as a value: the blocks that tile it, the seventeen free lists in order, and
    the live requests.  Each operation of mm.c is given here as a function on that value; the
    concrete operations on memory words are proved equal to these functions in module Mm. */
module HeapSpec {
  import opened Words
  import opened SizeClass

  /** One block: its size with header, THISALLOC, and the PREVALLOC bit of its header. */
  datatype Block = Block(size: int, alloc: bool, prev: bool)

  /** Blocks are keyed by payload address.  `lo` is the first payload address, `hi` the break,
      `limit` the end of the region, `page` the least extension, `epi` the PREVALLOC bit of the
      epilogue header, `req` the requested size of every live pointer. */
  datatype Heap = Heap(
    lo: int, hi: int, limit: int, page: int, epi: bool,
    blocks: map<int, Block>, lists: seq<seq<int>>, req: map<int, int>)

  // ---- well-formedness -------------------------------------------------------------------

  predicate IsFree(h: Heap, p: int) {
    p in h.blocks && !h.blocks[p].alloc
  }

  predicate IsAlloc(h: Heap, p: int) {
    p in h.blocks && h.blocks[p].alloc
  }

  function End(h: Heap, p: int): int
    requires p in h.blocks
  {
    p + h.blocks[p].size
  }

  predicate Placed(h: Heap, p: int)
    requires p in h.blocks
  {
    && p % 8 == 0
    && h.blocks[p].size % 8 == 0
    && 16 <= h.blocks[p].size
    && h.lo <= p
    && End(h, p) <= h.hi
  }

  /** The block is followed by another block or by the epilogue. */
  predicate Adjoins(h: Heap, p: int)
    requires p in h.blocks
  {
    End(h, p) == h.hi || End(h, p) in h.blocks
  }

  predicate Bounds(h: Heap) {
    && h.lo % 8 == 0
    && h.hi % 8 == 0
    && h.limit % 8 == 0
    && 24 <= h.lo < h.hi <= h.limit < WORD_SPAN
    && h.page % 8 == 0
    && 16 <= h.page < WORD_SPAN
  }

  ghost predicate Disjoint(h: Heap) {
    forall p, q :: p in h.blocks && q in h.blocks && p < q ==> End(h, p) <= q
  }

  /** The blocks tile [lo, hi). */
  ghost predicate Tiled(h: Heap) {
    && Bounds(h)
    && h.lo in h.blocks
    && (forall p :: p in h.blocks ==> Placed(h, p))
    && (forall p {:trigger Adjoins(h, p)} :: p in h.blocks ==> Adjoins(h, p))
    && Disjoint(h)
  }

  ghost predicate FreeBefore(h: Heap, p: int) {
    exists q :: IsFree(h, q) && End(h, q) == p
  }

  ghost predicate BitSound(h: Heap, p: int)
    requires p in h.blocks
  {
    !h.blocks[p].prev ==> FreeBefore(h, p)
  }

  /** A clear PREVALLOC bit is never wrong. */
  ghost predicate BitsSound(h: Heap) {
    && (forall p {:trigger BitSound(h, p)} :: p in h.blocks ==> BitSound(h, p))
    && (!h.epi ==> FreeBefore(h, h.hi))
  }

  ghost predicate Distinct(l: seq<int>) {
    forall j, k :: 0 <= j < k < |l| ==> l[j] != l[k]
  }

  /** The lists hold exactly the free blocks outside `x`, each once and in its size class. */
  ghost predicate Indexed(h: Heap, x: set<int>) {
    && |h.lists| == FREELIST_COUNT
    && (forall p :: p in x ==> IsFree(h, p))
    && (forall i, p :: 0 <= i < FREELIST_COUNT && p in h.lists[i] ==>
          IsFree(h, p) && p !in x && h.blocks[p].size >= 0 && ListIndex(h.blocks[p].size) == i)
    && (forall p :: IsFree(h, p) && p !in x ==>
          h.blocks[p].size >= 0 && p in h.lists[ListIndex(h.blocks[p].size)])
    && (forall i :: 0 <= i < FREELIST_COUNT ==> Distinct(h.lists[i]))
  }

  /** The invariant inside the allocator; `x` holds the free blocks not on any list just now. */
  ghost predicate Sound(h: Heap, x: set<int>) {
    Tiled(h) && BitsSound(h) && Indexed(h, x)
  }

  ghost predicate AllBitsSet(h: Heap) {
    forall p :: p in h.blocks ==> h.blocks[p].prev
  }

  /** The block has room for the header and the request, and fewer than sixteen bytes more. */
  predicate Serves(b: Block, size: int) {
    1 <= size <= MAX_REQUEST && Max(16, size + 4) <= b.size < Max(16, size + 4) + 16
  }

  /** For block sizes that means: the adjusted size of the request, or eight bytes more. */
  lemma ServesIff(b: Block, size: int)
    requires 1 <= size <= MAX_REQUEST && b.size % 8 == 0
    ensures Serves(b, size) <==> b.size == AdjustByteSize(size) || b.size == AdjustByteSize(size) + 8
  {
    hide AdjustByteSize;
    AdjustIsLeast(size);
    var k, j := b.size / 8, AdjustByteSize(size) / 8;
    assert b.size == 8 * k && AdjustByteSize(size) == 8 * j;
  }

  ghost predicate Live(h: Heap) {
    && (forall p :: p in h.req <==> IsAlloc(h, p))
    && (forall p :: p in h.req ==> Serves(h.blocks[p], h.req[p]))
  }

  /** The invariant between calls of the public operations. */
  ghost predicate Quiescent(h: Heap) {
    Sound(h, {}) && AllBitsSet(h) && Live(h)
  }

  // ---- list operations -------------------------------------------------------------------

  /** The list without (the first occurrence of) `p`, the others in order. */
  function Without(l: seq<int>, p: int): seq<int> {
    if l == [] then []
    else if l[0] == p then l[1..]
    else [l[0]] + Without(l[1..], p)
  }

  lemma {:induction false} WithoutAt(l: seq<int>, k: int)
    requires 0 <= k < |l| && Distinct(l)
    ensures Without(l, l[k]) == l[..k] + l[k + 1..]
  {
    if k > 0 {
      var t := l[1..];
      assert l[0] != l[k] && t[k - 1] == l[k];
      WithoutAt(t, k - 1);
      CutAfterFirst(l, k);
    }
  }

  lemma CutAfterFirst(l: seq<int>, k: int)
    requires 0 < k < |l|
    ensures [l[0]] + (l[1..][..k - 1] + l[1..][k..]) == l[..k] + l[k + 1..]
  {
  }

  lemma WithoutMembers(l: seq<int>, p: int)
    requires Distinct(l) && p in l
    ensures Distinct(Without(l, p))
    ensures forall q :: q in Without(l, p) <==> q in l && q != p
  {
    var k :| 0 <= k < |l| && l[k] == p;
    WithoutAt(l, k);
    var w := l[..k] + l[k + 1..];
    forall q | q in l && q != p
      ensures q in w
    {
      var j :| 0 <= j < |l| && l[j] == q;
      if j < k { assert w[j] == q; } else { assert w[j - 1] == q; }
    }
  }

  /** Take a free block off its list. */
  function Unlist(h: Heap, p: int): Heap
    requires p in h.blocks && h.blocks[p].size >= 0 && |h.lists| == FREELIST_COUNT
  {
    var i := ListIndex(h.blocks[p].size);
    h.(lists := h.lists[i := Without(h.lists[i], p)])
  }

  /** Put a free block at the end of its list. */
  function Enlist(h: Heap, p: int): Heap
    requires p in h.blocks && h.blocks[p].size >= 0 && |h.lists| == FREELIST_COUNT
  {
    var i := ListIndex(h.blocks[p].size);
    h.(lists := h.lists[i := h.lists[i] + [p]])
  }

  lemma Listed(h: Heap, x: set<int>, i: int, p: int)
    requires Indexed(h, x) && 0 <= i < FREELIST_COUNT && p in h.lists[i]
    ensures IsFree(h, p) && p !in x && h.blocks[p].size >= 0 && ListIndex(h.blocks[p].size) == i
  {
  }

  lemma UnlistSound(h: Heap, x: set<int>, p: int)
    requires Sound(h, x) && IsFree(h, p) && p !in x
    ensures Sound(Unlist(h, p), x + {p})
  {
    BlocksOnly(h, Unlist(h, p));
    UnlistIndexed(h, x, p);
  }

  lemma UnlistIndexed(h: Heap, x: set<int>, p: int)
    requires Indexed(h, x) && IsFree(h, p) && p !in x
    ensures Indexed(Unlist(h, p), x + {p})
  {
    var h' := Unlist(h, p);
    var i := ListIndex(h.blocks[p].size);
    WithoutMembers(h.lists[i], p);
    forall j, q | 0 <= j < FREELIST_COUNT && q in h'.lists[j]
      ensures q in h.lists[j] && q != p
    {
    }
  }

  lemma EnlistIndexed(h: Heap, x: set<int>, p: int)
    requires Indexed(h, x) && p in x && h.blocks[p].size >= 0
    ensures Indexed(Enlist(h, p), x - {p})
  {
  }

  lemma EnlistSound(h: Heap, x: set<int>, p: int)
    requires Sound(h, x) && p in x
    ensures Sound(Enlist(h, p), x - {p})
  {
    assert Placed(h, p);
    BlocksOnly(h, Enlist(h, p));
    EnlistIndexed(h, x, p);
  }

  /** Tiling and bits depend only on the blocks and the bounds. */
  lemma BlocksOnly(h: Heap, h': Heap)
    requires h'.(lists := h.lists, req := h.req) == h
    ensures Tiled(h) ==> Tiled(h')
    ensures BitsSound(h) ==> BitsSound(h')
  {
    hide Tiled, BitsSound;
    if Tiled(h) {
      TiledOnly(h, h');
    }
    if BitsSound(h) {
      BitsOnly(h, h');
    }
  }

  lemma TiledOnly(h: Heap, h': Heap)
    requires h'.(lists := h.lists, req := h.req) == h && Tiled(h)
    ensures Tiled(h')
  {
    forall p | p in h'.blocks
      ensures Placed(h', p) && Adjoins(h', p)
    {
      assert Placed(h, p) && Adjoins(h, p);
    }
  }

  lemma BitsOnly(h: Heap, h': Heap)
    requires h'.(lists := h.lists, req := h.req) == h && BitsSound(h)
    ensures BitsSound(h')
  {
    forall p | FreeBefore(h, p)
      ensures FreeBefore(h', p)
    {
      var q :| IsFree(h, q) && End(h, q) == p;
      assert IsFree(h', q) && End(h', q) == p;
    }
    forall p | p in h'.blocks
      ensures BitSound(h', p)
    {
      assert BitSound(h, p);
    }
  }

  // ---- merging and splitting -------------------------------------------------------------

  /** Block `r` swallows its right neighbour. */
  function Absorb(h: Heap, r: int): Heap
    requires r in h.blocks && End(h, r) in h.blocks
  {
    var n := End(h, r);
    h.(blocks := (h.blocks - {n})[r := h.blocks[r].(size := h.blocks[r].size + h.blocks[n].size)])
  }

  lemma AbsorbAdjoins(h: Heap, r: int, p: int)
    requires Tiled(h) && r in h.blocks && End(h, r) in h.blocks && p in Absorb(h, r).blocks
    ensures Adjoins(Absorb(h, r), p)
  {
    var n := End(h, r);
    assert Placed(h, p) && Placed(h, r) && Placed(h, n);
    assert Adjoins(h, n);
    assert Adjoins(h, p);
  }

  lemma AbsorbTiled(h: Heap, r: int)
    requires Tiled(h) && r in h.blocks && End(h, r) in h.blocks
    ensures Tiled(Absorb(h, r))
  {
    var h' := Absorb(h, r);
    var n := End(h, r);
    assert Placed(h, r) && Placed(h, n);
    forall p | p in h'.blocks
      ensures Adjoins(h', p)
    {
      AbsorbAdjoins(h, r, p);
    }
    AlignedSum(h.blocks[r].size, h.blocks[n].size);
    forall p | p in h'.blocks
      ensures Placed(h', p)
    {
      assert Placed(h, p);
    }
    forall p, q | p in h'.blocks && q in h'.blocks && p < q
      ensures End(h', p) <= q
    {
      assert End(h, p) <= q && Placed(h, q);
      assert p == r ==> n < q;
    }
  }

  lemma AbsorbBits(h: Heap, r: int)
    requires Tiled(h) && BitsSound(h) && IsFree(h, r) && IsFree(h, End(h, r))
    ensures BitsSound(Absorb(h, r))
  {
    var h' := Absorb(h, r);
    var n := End(h, r);
    assert Placed(h, r) && Placed(h, n);
    forall p | p != n && FreeBefore(h, p)
      ensures FreeBefore(h', p)
    {
      var q :| IsFree(h, q) && End(h, q) == p;
      var q' := if q == n then r else q;
      assert IsFree(h', q') && End(h', q') == p;
    }
    assert forall p :: p in h.blocks ==> BitSound(h, p);
  }

  lemma AbsorbIndexed(h: Heap, x: set<int>, r: int)
    requires Indexed(h, x) && r in x && r in h.blocks && End(h, r) in x && r != End(h, r)
    ensures Indexed(Absorb(h, r), x - {End(h, r)})
  {
  }

  /** Merging two unlisted free neighbours keeps every invariant. */
  lemma AbsorbSound(h: Heap, x: set<int>, r: int)
    requires Sound(h, x) && r in x && r in h.blocks && End(h, r) in x
    ensures Sound(Absorb(h, r), x - {End(h, r)})
    ensures IsFree(Absorb(h, r), r)
  {
    assert Placed(h, r);
    AbsorbTiled(h, r);
    AbsorbBits(h, r);
    AbsorbIndexed(h, x, r);
  }

  /** The block that ends at `p`. */
  ghost function Predecessor(h: Heap, p: int): (q: int)
    requires FreeBefore(h, p)
    ensures IsFree(h, q) && End(h, q) == p
  {
    var q :| IsFree(h, q) && End(h, q) == p;
    q
  }

  // ---- coalesce --------------------------------------------------------------------------

  predicate NextFree(h: Heap, p: int)
    requires p in h.blocks
  {
    IsFree(h, End(h, p))
  }

  /** The payload address of the block that `coalesce` leaves. */
  ghost function MergePoint(h: Heap, p: int): int
    requires p in h.blocks && BitsSound(h)
  {
    if h.blocks[p].prev then p else assert BitSound(h, p); Predecessor(h, p)
  }

  lemma MergesHere(h: Heap, p: int)
    requires BitsSound(h) && p in h.blocks && h.blocks[p].prev
    ensures MergePoint(h, p) == p
  {
  }

  /** First half of coalesce: the right neighbour, when free, leaves its list and is absorbed. */
  ghost function MergeNext(h: Heap, p: int): Heap
    requires Tiled(h) && IsFree(h, p) && |h.lists| == FREELIST_COUNT
  {
    if NextFree(h, p) then
      assert Placed(h, End(h, p));
      Absorb(Unlist(h, End(h, p)), p)
    else h
  }

  /** Second half: when the PREVALLOC bit is clear, the left neighbour leaves its list and
      absorbs the block. */
  ghost function MergePrev(h: Heap, p: int): Heap
    requires Tiled(h) && BitsSound(h) && p in h.blocks && |h.lists| == FREELIST_COUNT
  {
    if h.blocks[p].prev then h
    else
      assert BitSound(h, p);
      assert Placed(h, Predecessor(h, p));
      Absorb(Unlist(h, Predecessor(h, p)), Predecessor(h, p))
  }

  lemma MergeNextSound(h: Heap, x: set<int>, p: int)
    requires Sound(h, x) && p in x && p in h.blocks && (NextFree(h, p) ==> End(h, p) !in x)
    ensures Sound(MergeNext(h, p), x) && IsFree(MergeNext(h, p), p)
    ensures MergeNext(h, p).blocks[p].prev == h.blocks[p].prev
  {
    if NextFree(h, p) {
      var n := End(h, p);
      UnlistSound(h, x, n);
      AbsorbSound(Unlist(h, n), x + {n}, p);
      assert x + {n} - {n} == x;
    }
  }

  lemma MergePrevSound(h: Heap, x: set<int>, p: int)
    requires Sound(h, x) && p in x && p in h.blocks
    requires MergePoint(h, p) == p || MergePoint(h, p) !in x
    ensures Sound(MergePrev(h, p), x - {p} + {MergePoint(h, p)})
    ensures IsFree(MergePrev(h, p), MergePoint(h, p))
  {
    SeventeenLists(h, x);
    assert IsFree(h, p);
    hide BitsSound, Indexed;
    if h.blocks[p].prev {
      assert x - {p} + {p} == x;
    } else {
      var q := MergePoint(h, p);
      assert Placed(h, q);
      hide Tiled;
      UnlistSound(h, x, q);
      AbsorbSound(Unlist(h, q), x + {q}, q);
      assert x + {q} - {p} == x - {p} + {q};
    }
  }

  /** coalesce as a whole: merge to the right, merge to the left, list the result. */
  ghost function Coalesced(h: Heap, p: int): Heap
    requires Sound(h, {p}) && p in h.blocks
  {
    CoalesceSteps(h, p);
    Enlist(MergePrev(MergeNext(h, p), p), MergePoint(h, p))
  }

  lemma CoalesceSteps(h: Heap, p: int)
    requires Sound(h, {p}) && p in h.blocks
    ensures var h1 := MergeNext(h, p);
      && Sound(h1, {p}) && IsFree(h1, p) && MergePoint(h1, p) == MergePoint(h, p)
      && Sound(MergePrev(h1, p), {MergePoint(h, p)})
      && IsFree(MergePrev(h1, p), MergePoint(h, p))
      && MergePrev(h1, p).blocks[MergePoint(h, p)].size >= 0
  {
    hide Tiled, BitsSound, Indexed, MergeNext, MergePrev;
    StartsFree(h, p);
    NextUnlisted(h, p);
    MergeNextSound(h, {p}, p);
    var h1 := MergeNext(h, p);
    MergePointStays(h, p);
    StartsFree(h1, p);
    MergePrevSound(h1, {p}, p);
    assert {p} - {p} + {MergePoint(h, p)} == {MergePoint(h, p)};
    BlockSize(MergePrev(h1, p), MergePoint(h, p));
  }

  lemma BlockSize(h: Heap, p: int)
    requires Tiled(h) && p in h.blocks
    ensures 16 <= h.blocks[p].size && p < End(h, p) <= h.hi
  {
  }

  lemma BlocksApart(h: Heap, a: int, b: int)
    requires Tiled(h) && a in h.blocks && b in h.blocks
    ensures a == b || End(h, a) <= b || End(h, b) <= a
  {
  }

  lemma SeventeenLists(h: Heap, x: set<int>)
    requires Indexed(h, x)
    ensures |h.lists| == FREELIST_COUNT
  {
  }

  lemma StartsFree(h: Heap, p: int)
    requires Indexed(h, {p})
    ensures IsFree(h, p) && |h.lists| == FREELIST_COUNT
  {
  }

  lemma NextUnlisted(h: Heap, p: int)
    requires Tiled(h) && p in h.blocks
    ensures End(h, p) !in {p}
  {
  }

  /** Merging to the right does not change what lies to the left. */
  lemma MergePointStays(h: Heap, p: int)
    requires Tiled(h) && BitsSound(h) && IsFree(h, p) && |h.lists| == FREELIST_COUNT
    requires Tiled(MergeNext(h, p)) && BitsSound(MergeNext(h, p)) && IsFree(MergeNext(h, p), p)
    requires MergeNext(h, p).blocks[p].prev == h.blocks[p].prev
    ensures MergePoint(MergeNext(h, p), p) == MergePoint(h, p)
    ensures MergePoint(h, p) == p || MergePoint(h, p) !in {p}
  {
  }

  /** In all four cases coalesce leaves every invariant intact and nothing unlisted. */
  lemma CoalescedSound(h: Heap, p: int)
    requires Sound(h, {p}) && p in h.blocks
    ensures Sound(Coalesced(h, p), {})
  {
    CoalesceSteps(h, p);
    var r := MergePoint(h, p);
    EnlistSound(MergePrev(MergeNext(h, p), p), {r}, r);
    assert {r} - {r} == {};
  }

  /** What absorbing does to the blocks. */
  ghost predicate Spans(h: Heap, h': Heap, r: int, e: int) {
    && r in h.blocks && r in h'.blocks && End(h', r) == e
    && h'.blocks[r] == h.blocks[r].(size := e - r)
    && (forall q :: q in h'.blocks && q != r ==> q in h.blocks && h'.blocks[q] == h.blocks[q] && (q < r || e <= q))
    && (forall q :: q in h.blocks && (q < r || e <= q) ==> q in h'.blocks)
    && h' == h.(blocks := h'.blocks, lists := h'.lists)
  }

  lemma SpansTrans(h: Heap, h1: Heap, h2: Heap, p: int, q: int, e: int)
    requires Spans(h, h1, p, e) && Spans(h1, h2, q, e) && q < p < e
    ensures q in h.blocks && Spans(h, h2, q, e)
  {
  }

  lemma MergeNextSpans(h: Heap, p: int)
    requires Tiled(h) && IsFree(h, p) && |h.lists| == FREELIST_COUNT
    ensures Spans(h, MergeNext(h, p), p, if NextFree(h, p) then End(h, End(h, p)) else End(h, p))
    ensures p < End(h, p) && p < End(MergeNext(h, p), p)
  {
    BlockSize(h, p);
    if NextFree(h, p) {
      AbsorbSpans(h, Unlist(h, End(h, p)), p);
    } else {
      SpansSelf(h, p);
    }
  }

  lemma SpansSelf(h: Heap, p: int)
    requires Tiled(h) && p in h.blocks
    ensures Spans(h, h, p, End(h, p))
  {
  }

  lemma AbsorbSpans(h: Heap, g: Heap, r: int)
    requires Tiled(h) && g == h.(lists := g.lists) && r in h.blocks && End(h, r) in h.blocks
    ensures Spans(h, Absorb(g, r), r, End(h, End(h, r))) && r < End(h, r) < End(h, End(h, r))
  {
    BlockSize(h, r);
    BlockSize(h, End(h, r));
  }

  lemma MergePrevSpans(h: Heap, p: int)
    requires Tiled(h) && BitsSound(h) && p in h.blocks && |h.lists| == FREELIST_COUNT && !h.blocks[p].prev
    ensures Spans(h, MergePrev(h, p), MergePoint(h, p), End(h, p)) && MergePoint(h, p) < p
  {
    var q := MergePoint(h, p);
    assert IsFree(h, q) && End(h, q) == p;
    BlockSize(h, q);
    hide BitsSound;
    AbsorbSpans(h, Unlist(h, q), q);
  }

  /** What coalesce does to the blocks: one free block spans exactly the merged ones, and every
      other block is as it was. */
  lemma CoalescedBlocks(h: Heap, p: int)
    requires Sound(h, {p}) && p in h.blocks
    ensures var r := MergePoint(h, p);
      && IsFree(Coalesced(h, p), r)
      && Spans(h, Coalesced(h, p), r, if NextFree(h, p) then End(h, End(h, p)) else End(h, p))
  {
    CoalesceSteps(h, p);
    MergeNextSpans(h, p);
    var h1 := MergeNext(h, p);
    var r := MergePoint(h, p);
    if !h.blocks[p].prev {
      MergePrevSpans(h1, p);
      SpansTrans(h, h1, MergePrev(h1, p), p, r, End(h1, p));
    }
  }
}
