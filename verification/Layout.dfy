/** How a heap value is laid out in memory words: boundary tags around every block, and the
    links of the free lists inside the free payloads.  The lemmas say what each kind of write of
    mm.c does to that layout. */
module Layout {
  import opened Words
  import opened SizeClass
  import opened HeapSpec

  // ---- representation ----------------------------------------------------------------------

  function Flags(alloc: bool, prev: bool): int {
    (if alloc then THISALLOC else 0) + (if prev then PREVALLOC else 0)
  }

  function Header(b: Block): int {
    b.size + Flags(b.alloc, b.prev)
  }

  const EPILOGUE: int := 0xEA7F00D0
  const ALIGNMENT_WORD: int := 0x8BADF00D

  /** The header of a block, and the size in the footer when the block is free. */
  predicate TagAt(m: Mem, h: Heap, p: int)
    requires p in h.blocks
  {
    && Rd(m, p - 4) == Header(h.blocks[p])
    && (!h.blocks[p].alloc ==> GetSize(Rd(m, End(h, p) - 8)) == h.blocks[p].size)
  }

  predicate Ends(m: Mem, h: Heap) {
    && Rd(m, h.hi - 4) == EPILOGUE + Flags(true, h.epi)
    && Rd(m, h.lo - 16) == ALIGNMENT_WORD
    && Rd(m, h.lo - 12) == 8 + Flags(true, true)
    && Rd(m, h.lo - 8) == 8 + Flags(true, true)
  }

  ghost predicate Tags(m: Mem, h: Heap) {
    (forall p :: p in h.blocks ==> TagAt(m, h, p)) && Ends(m, h)
  }

  /** Node `k` of list `l` links to its two neighbours, with NULL at the ends. */
  predicate NodeAt(m: Mem, l: seq<int>, k: int)
    requires 0 <= k < |l|
  {
    && Rd(m, l[k]) == (if k + 1 < |l| then l[k + 1] else 0)
    && Rd(m, l[k] + 4) == (if k > 0 then l[k - 1] else 0)
  }

  ghost predicate Chain(m: Mem, head: int, l: seq<int>) {
    && head == (if l == [] then 0 else l[0])
    && forall k :: 0 <= k < |l| ==> NodeAt(m, l, k)
  }

  ghost predicate Chains(m: Mem, f: seq<int>, lists: seq<seq<int>>) {
    && |f| == |lists| == FREELIST_COUNT
    && forall i :: 0 <= i < FREELIST_COUNT ==> Chain(m, f[i], lists[i])
  }

  /** Memory `m` and list heads `f` represent heap `h`. */
  ghost predicate Rep(m: Mem, f: seq<int>, h: Heap) {
    Tags(m, h) && Chains(m, f, h.lists)
  }

  // ---- what a change of memory keeps -----------------------------------------------------------

  predicate LinkWord(h: Heap, a: int) {
    IsFree(h, a) || IsFree(h, a - 4)
  }

  /** Memory differs only in the link words of free blocks. */
  ghost predicate OnlyLinks(m: Mem, m': Mem, h: Heap) {
    forall a :: !LinkWord(h, a) ==> Rd(m', a) == Rd(m, a)
  }

  ghost predicate SameWords(m: Mem, m': Mem, a: int, b: int) {
    forall w :: a <= w < b ==> Rd(m', w) == Rd(m, w)
  }

  /** Every word of every allocated payload is unchanged. */
  ghost predicate Kept(m: Mem, m': Mem, h: Heap) {
    forall p :: IsAlloc(h, p) ==> SameWords(m, m', p, End(h, p) - 4)
  }

  lemma KeptTrans(m: Mem, m1: Mem, m2: Mem, h: Heap)
    requires Kept(m, m1, h) && Kept(m1, m2, h)
    ensures Kept(m, m2, h)
  {
  }

  lemma TagsFrame(m: Mem, m': Mem, h: Heap)
    requires Tiled(h) && Tags(m, h) && OnlyLinks(m, m', h)
    ensures Tags(m', h)
  {
  }

  lemma KeptFrame(m: Mem, m': Mem, h: Heap)
    requires Tiled(h) && OnlyLinks(m, m', h)
    ensures Kept(m, m', h)
  {
  }

  lemma ChainOf(m: Mem, f: seq<int>, lists: seq<seq<int>>, i: int)
    requires Chains(m, f, lists) && 0 <= i < FREELIST_COUNT
    ensures |f| == |lists| == FREELIST_COUNT && Chain(m, f[i], lists[i])
  {
  }

  lemma ChainFrame(m: Mem, m': Mem, head: int, l: seq<int>)
    requires Chain(m, head, l)
    requires forall p :: p in l ==> Rd(m', p) == Rd(m, p) && Rd(m', p + 4) == Rd(m, p + 4)
    ensures Chain(m', head, l)
  {
    forall k | 0 <= k < |l|
      ensures NodeAt(m', l, k)
    {
      assert NodeAt(m, l, k) && l[k] in l;
    }
  }

  // ---- remove_from_list ------------------------------------------------------------------------

  /** The memory after remove_from_list has run through the links stored in block `p`. */
  function Unlinked(m: Mem, p: int): Mem {
    var m1 := if Rd(m, p) != 0 then m[Rd(m, p) + 4 := Rd(m, p + 4)] else m;
    if Rd(m1, p + 4) != 0 then m1[Rd(m1, p + 4) := Rd(m1, p)] else m1
  }

  /** The list heads after it; `m` is the memory after the link writes. */
  function UnlinkedHeads(m: Mem, f: seq<int>, i: int, p: int): seq<int>
    requires 0 <= i < |f|
  {
    if f[i] == p then f[i := Rd(m, p)] else f
  }

  ghost predicate Nodes(l: seq<int>) {
    Distinct(l) && forall p :: p in l ==> p % 8 == 0 && 0 < p
  }

  lemma ListNodes(h: Heap, x: set<int>, i: int)
    requires Sound(h, x) && 0 <= i < FREELIST_COUNT
    ensures Nodes(h.lists[i])
  {
    forall p | p in h.lists[i]
      ensures p % 8 == 0 && 0 < p
    {
      Listed(h, x, i, p);
      assert Placed(h, p);
    }
  }

  /** No node of list `j` or its second link is a node of another list. */
  lemma ListsApart(h: Heap, x: set<int>, i: int, j: int, q: int)
    requires Sound(h, x) && 0 <= i < FREELIST_COUNT && 0 <= j < FREELIST_COUNT && i != j && q in h.lists[j]
    ensures q !in h.lists[i] && q - 4 !in h.lists[i] && q + 4 !in h.lists[i]
  {
    ListNodes(h, x, i);
    ListNodes(h, x, j);
    Listed(h, x, j, q);
    if q in h.lists[i] {
      Listed(h, x, i, q);
    }
  }

  /** The links of a listed block lead to free blocks. */
  lemma NeighboursListed(m: Mem, f: seq<int>, h: Heap, x: set<int>, p: int)
    requires Indexed(h, x) && Chains(m, f, h.lists) && IsFree(h, p) && p !in x
    ensures Rd(m, p) != 0 ==> IsFree(h, Rd(m, p))
    ensures Rd(m, p + 4) != 0 ==> IsFree(h, Rd(m, p + 4))
  {
    var i := ListIndex(h.blocks[p].size);
    var l := h.lists[i];
    var k :| 0 <= k < |l| && l[k] == p;
    assert Chain(m, f[i], l) && NodeAt(m, l, k);
    if k + 1 < |l| {
      Listed(h, x, i, l[k + 1]);
    }
    if k > 0 {
      Listed(h, x, i, l[k - 1]);
    }
  }

  /** The two words that unlinking writes are links of the neighbours of node `k`. */
  lemma UnlinkWords(m: Mem, head: int, l: seq<int>, k: int)
    requires Chain(m, head, l) && Nodes(l) && 0 <= k < |l|
    ensures var m' := Unlinked(m, l[k]);
      && (k + 1 < |l| ==> Rd(m', l[k + 1] + 4) == Rd(m, l[k] + 4))
      && (k > 0 ==> Rd(m', l[k - 1]) == Rd(m, l[k]))
      && (forall a :: Rd(m', a) == Rd(m, a) || (k + 1 < |l| && a == l[k + 1] + 4) || (k > 0 && a == l[k - 1]))
  {
    assert NodeAt(m, l, k);
    if k + 1 < |l| { assert l[k + 1] in l; }
    if k > 0 { assert l[k - 1] in l; }
    assert l[k] in l;
  }

  lemma ChainUnlink(m: Mem, head: int, l: seq<int>, k: int)
    requires Chain(m, head, l) && Nodes(l) && 0 <= k < |l|
    ensures var m' := Unlinked(m, l[k]);
      && Rd(m', l[k]) == Rd(m, l[k]) && Rd(m', l[k] + 4) == Rd(m, l[k] + 4)
      && Chain(m', if head == l[k] then Rd(m', l[k]) else head, l[..k] + l[k + 1..])
  {
    var m' := Unlinked(m, l[k]);
    var l' := l[..k] + l[k + 1..];
    UnlinkWords(m, head, l, k);
    hide Unlinked, Rd;
    assert l[k] in l && NodeAt(m, l, k);
    assert k + 1 < |l| ==> l[k + 1] in l;
    assert k > 0 ==> l[k - 1] in l;
    forall j | 0 <= j < |l'|
      ensures NodeAt(m', l', j)
    {
      UnlinkNode(m, m', head, l, k, if j < k then j else j + 1);
    }
  }

  /** Node `j` of the old list, at its place in the new one. */
  lemma UnlinkNode(m: Mem, m': Mem, head: int, l: seq<int>, k: int, j: int)
    requires Chain(m, head, l) && Nodes(l) && 0 <= k < |l| && 0 <= j < |l| && j != k
    requires k + 1 < |l| ==> Rd(m', l[k + 1] + 4) == Rd(m, l[k] + 4)
    requires k > 0 ==> Rd(m', l[k - 1]) == Rd(m, l[k])
    requires forall a :: Rd(m', a) == Rd(m, a) || (k + 1 < |l| && a == l[k + 1] + 4) || (k > 0 && a == l[k - 1])
    ensures NodeAt(m', l[..k] + l[k + 1..], if j < k then j else j - 1)
  {
    hide Rd;
    assert NodeAt(m, l, j) && NodeAt(m, l, k);
    assert l[j] in l;
    assert k + 1 < |l| ==> l[k + 1] in l;
    assert k > 0 ==> l[k - 1] in l;
  }

  /** Unlinking touches only links of the list that holds `p`. */
  lemma UnlinkOther(m: Mem, f: seq<int>, h: Heap, x: set<int>, p: int, k: int)
    requires Sound(h, x) && Rep(m, f, h) && IsFree(h, p) && p !in x
    requires var l := h.lists[ListIndex(h.blocks[p].size)]; 0 <= k < |l| && l[k] == p
    ensures var l := h.lists[ListIndex(h.blocks[p].size)];
      forall a :: a !in l && a - 4 !in l ==> Rd(Unlinked(m, p), a) == Rd(m, a)
  {
    var i := ListIndex(h.blocks[p].size);
    ListNodes(h, x, i);
    UnlinkWords(m, f[i], h.lists[i], k);
  }

  lemma UnlinkChains(m: Mem, f: seq<int>, h: Heap, x: set<int>, p: int, k: int)
    requires Sound(h, x) && Rep(m, f, h) && IsFree(h, p) && p !in x
    requires var l := h.lists[ListIndex(h.blocks[p].size)]; 0 <= k < |l| && l[k] == p
    ensures var m' := Unlinked(m, p); var i := ListIndex(h.blocks[p].size);
      Chains(m', UnlinkedHeads(m', f, i, p), Unlist(h, p).lists)
  {
    var m' := Unlinked(m, p);
    var i := ListIndex(h.blocks[p].size);
    ListNodes(h, x, i);
    ChainUnlink(m, f[i], h.lists[i], k);
    WithoutAt(h.lists[i], k);
    UnlinkOther(m, f, h, x, p, k);
    forall j | 0 <= j < FREELIST_COUNT && j != i
      ensures Chain(m', f[j], h.lists[j])
    {
      UnlinkOtherChain(m, m', f, h, x, i, j);
    }
  }

  lemma UnlinkOnlyLinks(m: Mem, f: seq<int>, h: Heap, x: set<int>, p: int, k: int)
    requires Sound(h, x) && Rep(m, f, h) && IsFree(h, p) && p !in x
    requires var l := h.lists[ListIndex(h.blocks[p].size)]; 0 <= k < |l| && l[k] == p
    ensures OnlyLinks(m, Unlinked(m, p), h)
    ensures Rd(Unlinked(m, p), p) == Rd(m, p) && Rd(Unlinked(m, p), p + 4) == Rd(m, p + 4)
  {
    hide Tiled, BitsSound, Indexed, Tags, Chains, Chain, Nodes, Unlinked, OnlyLinks;
    SeventeenLists(h, x);
    BlockSize(h, p);
    ChainOf(m, f, h.lists, ListIndex(h.blocks[p].size));
    var i := ListIndex(h.blocks[p].size);
    ListNodes(h, x, i);
    ChainUnlink(m, f[i], h.lists[i], k);
    UnlinkOther(m, f, h, x, p, k);
    ListedLinks(m, Unlinked(m, p), h, x, i);
  }

  /** remove_from_list, run on a listed block, deletes exactly that block from its list: the rest
      of the list keeps its order, and the other lists, the tags and the payloads are untouched. */
  lemma UnlinkRep(m: Mem, f: seq<int>, h: Heap, x: set<int>, p: int)
    requires Sound(h, x) && Rep(m, f, h) && IsFree(h, p) && p !in x
    ensures var m' := Unlinked(m, p); var i := ListIndex(h.blocks[p].size);
      && Rep(m', UnlinkedHeads(m', f, i, p), Unlist(h, p))
      && OnlyLinks(m, m', h)
      && Rd(m', p) == Rd(m, p) && Rd(m', p + 4) == Rd(m, p + 4)
  {
    var m' := Unlinked(m, p);
    var i := ListIndex(h.blocks[p].size);
    var l := h.lists[i];
    var k :| 0 <= k < |l| && l[k] == p;
    UnlinkChains(m, f, h, x, p, k);
    UnlinkOnlyLinks(m, f, h, x, p, k);
    TagsFrame(m, m', h);
    TagsLists(m', h, Unlist(h, p));
  }

  /** remove_from_list as a step from one represented heap to the next. */
  lemma UnlinkStep(m: Mem, f: seq<int>, h: Heap, x: set<int>, p: int)
    requires Sound(h, x) && Rep(m, f, h) && IsFree(h, p) && p !in x
    ensures var m' := Unlinked(m, p); var i := ListIndex(h.blocks[p].size);
      && Rep(m', UnlinkedHeads(m', f, i, p), Unlist(h, p))
      && Sound(Unlist(h, p), x + {p})
      && Kept(m, m', h)
      && Rd(m', p) == Rd(m, p) && Rd(m', p + 4) == Rd(m, p + 4)
  {
    UnlinkRep(m, f, h, x, p);
    UnlistSound(h, x, p);
    KeptFrame(m, Unlinked(m, p), h);
  }

  lemma ListedLinks(m: Mem, m': Mem, h: Heap, x: set<int>, i: int)
    requires Indexed(h, x) && 0 <= i < FREELIST_COUNT
    requires forall a :: a !in h.lists[i] && a - 4 !in h.lists[i] ==> Rd(m', a) == Rd(m, a)
    ensures OnlyLinks(m, m', h)
  {
    forall a | !LinkWord(h, a)
      ensures Rd(m', a) == Rd(m, a)
    {
      if a in h.lists[i] {
        Listed(h, x, i, a);
      } else if a - 4 in h.lists[i] {
        Listed(h, x, i, a - 4);
      }
    }
  }

  lemma UnlinkOtherChain(m: Mem, m': Mem, f: seq<int>, h: Heap, x: set<int>, i: int, j: int)
    requires Sound(h, x) && Chains(m, f, h.lists) && 0 <= i < FREELIST_COUNT && 0 <= j < FREELIST_COUNT && i != j
    requires forall a :: a !in h.lists[i] && a - 4 !in h.lists[i] ==> Rd(m', a) == Rd(m, a)
    ensures Chain(m', f[j], h.lists[j])
  {
    ListNodes(h, x, i);
    ListNodes(h, x, j);
    forall q | q in h.lists[j]
      ensures Rd(m', q) == Rd(m, q) && Rd(m', q + 4) == Rd(m, q + 4)
    {
      ListsApart(h, x, i, j, q);
    }
    ChainFrame(m, m', f[j], h.lists[j]);
  }

  /** Tags do not depend on the lists. */
  lemma TagsLists(m: Mem, h: Heap, h': Heap)
    requires Tags(m, h) && h'.(lists := h.lists, req := h.req) == h
    ensures Tags(m, h')
  {
  }

  // ---- add_to_list -----------------------------------------------------------------------------

  /** The memory after add_to_list has put block `p` behind `tail` (0 for an empty list). */
  function Linked(m: Mem, p: Word, tail: Word): Mem {
    if tail == 0 then m[p := 0][p + 4 := 0] else m[p := 0][tail := p][p + 4 := tail]
  }

  function LinkedHeads(f: seq<int>, i: int, p: int, tail: int): seq<int>
    requires 0 <= i < |f|
  {
    if tail == 0 then f[i := p] else f
  }

  function Last(l: seq<int>): int {
    if l == [] then 0 else l[|l| - 1]
  }

  lemma ChainLink(m: Mem, head: int, l: seq<int>, p: Word)
    requires Chain(m, head, l) && Nodes(l) && p !in l && p % 8 == 0 && 0 < p && 0 <= Last(l) < WORD_SPAN
    ensures Chain(Linked(m, p, Last(l)), if Last(l) == 0 then p else head, l + [p])
  {
    var m' := Linked(m, p, Last(l));
    var l' := l + [p];
    assert forall j :: 0 <= j < |l| ==> l[j] in l;
    assert l != [] ==> Last(l) in l;
    forall j | 0 <= j < |l'|
      ensures NodeAt(m', l', j)
    {
      if j < |l| {
        assert NodeAt(m, l, j);
      }
    }
  }

  lemma LinkChains(m: Mem, f: seq<int>, h: Heap, x: set<int>, p: Word)
    requires Sound(h, x) && Chains(m, f, h.lists) && p in x && h.blocks[p].size >= 0
    requires 0 <= Last(h.lists[ListIndex(h.blocks[p].size)]) < WORD_SPAN
    ensures var i := ListIndex(h.blocks[p].size); var t := Last(h.lists[i]);
      Chains(Linked(m, p, t), LinkedHeads(f, i, p, t), Enlist(h, p).lists)
  {
    var i := ListIndex(h.blocks[p].size);
    var l := h.lists[i];
    assert Placed(h, p);
    ListNodes(h, x, i);
    assert p !in l;
    ChainLink(m, f[i], l, p);
    forall j | 0 <= j < FREELIST_COUNT && j != i
      ensures Chain(Linked(m, p, Last(l)), f[j], h.lists[j])
    {
      LinkOtherChain(m, f, h, x, i, j, p);
    }
  }

  lemma LinkWords(m: Mem, h: Heap, x: set<int>, i: int, p: Word)
    requires Indexed(h, x) && 0 <= i < FREELIST_COUNT && p in x && 0 <= Last(h.lists[i]) < WORD_SPAN
    ensures OnlyLinks(m, Linked(m, p, Last(h.lists[i])), h)
  {
  }

  /** add_to_list appends exactly one node to one list and touches nothing else. */
  lemma LinkRep(m: Mem, f: seq<int>, h: Heap, x: set<int>, p: Word)
    requires Sound(h, x) && Rep(m, f, h) && p in x && h.blocks[p].size >= 0
    requires 0 <= Last(h.lists[ListIndex(h.blocks[p].size)]) < WORD_SPAN
    ensures var i := ListIndex(h.blocks[p].size); var t := Last(h.lists[i]);
      && Rep(Linked(m, p, t), LinkedHeads(f, i, p, t), Enlist(h, p))
      && OnlyLinks(m, Linked(m, p, t), h)
  {
    var i := ListIndex(h.blocks[p].size);
    var m' := Linked(m, p, Last(h.lists[i]));
    LinkChains(m, f, h, x, p);
    LinkWords(m, h, x, i, p);
    TagsFrame(m, m', h);
    TagsLists(m', h, Enlist(h, p));
  }

  /** add_to_list as a step from one represented heap to the next. */
  lemma LinkStep(m: Mem, f: seq<int>, h: Heap, x: set<int>, p: Word)
    requires Sound(h, x) && Rep(m, f, h) && p in x && h.blocks[p].size >= 0
    requires 0 <= Last(h.lists[ListIndex(h.blocks[p].size)]) < WORD_SPAN
    ensures var i := ListIndex(h.blocks[p].size); var t := Last(h.lists[i]);
      && Rep(Linked(m, p, t), LinkedHeads(f, i, p, t), Enlist(h, p))
      && Sound(Enlist(h, p), x - {p})
      && Kept(m, Linked(m, p, t), h)
  {
    LinkRep(m, f, h, x, p);
    EnlistSound(h, x, p);
    KeptFrame(m, Linked(m, p, Last(h.lists[ListIndex(h.blocks[p].size)])), h);
  }

  lemma LinkOtherChain(m: Mem, f: seq<int>, h: Heap, x: set<int>, i: int, j: int, p: Word)
    requires Sound(h, x) && Chains(m, f, h.lists) && 0 <= i < FREELIST_COUNT && 0 <= j < FREELIST_COUNT && i != j
    requires p in x && 0 <= Last(h.lists[i]) < WORD_SPAN
    ensures Chain(Linked(m, p, Last(h.lists[i])), f[j], h.lists[j])
  {
    var l := h.lists[i];
    assert Placed(h, p);
    ListNodes(h, x, i);
    ListNodes(h, x, j);
    assert l != [] ==> Last(l) in l;
    forall q | q in h.lists[j]
      ensures Rd(Linked(m, p, Last(l)), q) == Rd(m, q) && Rd(Linked(m, p, Last(l)), q + 4) == Rd(m, q + 4)
    {
      Listed(h, x, j, q);
      ListsApart(h, x, i, j, q);
    }
    ChainFrame(m, Linked(m, p, Last(l)), f[j], h.lists[j]);
  }

  // ---- writing tags ------------------------------------------------------------------------------

  /** Address `a` is neither a link of a listed block nor a payload word of an allocated one. */
  predicate ClearOf(h: Heap, p: int, a: int)
    requires p in h.blocks
  {
    if h.blocks[p].alloc then a < p || End(h, p) - 4 <= a else a != p && a != p + 4
  }

  ghost predicate Clear(h: Heap, x: set<int>, a: int) {
    forall p :: p in h.blocks && p !in x ==> ClearOf(h, p, a)
  }

  /** Memory differs at most in the words `a` and `b`, which hold `w` afterwards. */
  ghost predicate Wrote(m: Mem, m': Mem, a: int, b: int, w: Word) {
    forall c :: Rd(m', c) == if c == a || c == b then w else Rd(m, c)
  }

  /** A write to clear addresses disturbs no list and no payload. */
  lemma ClearWrite(m: Mem, m': Mem, f: seq<int>, h: Heap, x: set<int>, a: int, b: int, w: Word)
    requires Indexed(h, x) && Chains(m, f, h.lists) && Clear(h, x, a) && Clear(h, x, b) && Wrote(m, m', a, b, w)
    ensures Chains(m', f, h.lists)
    ensures Kept(m, m', h)
  {
    forall i | 0 <= i < FREELIST_COUNT
      ensures Chain(m', f[i], h.lists[i])
    {
      forall p | p in h.lists[i]
        ensures Rd(m', p) == Rd(m, p) && Rd(m', p + 4) == Rd(m, p + 4)
      {
        Listed(h, x, i, p);
        assert ClearOf(h, p, a) && ClearOf(h, p, b);
      }
      ChainFrame(m, m', f[i], h.lists[i]);
    }
    forall p | IsAlloc(h, p)
      ensures SameWords(m, m', p, End(h, p) - 4)
    {
      ClearUnlisted(h, x, p);
      assert ClearOf(h, p, a) && ClearOf(h, p, b);
    }
  }

  lemma ClearUnlisted(h: Heap, x: set<int>, p: int)
    requires Indexed(h, x) && IsAlloc(h, p)
    ensures p !in x
  {
  }

  /** Inside an unlisted free block every address is clear. */
  lemma ClearInside(h: Heap, x: set<int>, r: int, a: int)
    requires Tiled(h) && r in h.blocks && r - 4 <= a < End(h, r) - 4 && r in x
    ensures Clear(h, x, a)
  {
  }

  /** A header word is clear, that of the epilogue included. */
  lemma ClearHeader(h: Heap, x: set<int>, n: int)
    requires Tiled(h) && (n in h.blocks || n >= h.hi)
    ensures Clear(h, x, n - 4)
  {
  }

  /** The blocks of `h'` other than `r` are blocks of `h`. */
  ghost predicate OthersSame(h: Heap, h': Heap, r: int) {
    && (forall p :: p in h'.blocks && p != r ==> p in h.blocks && h'.blocks[p] == h.blocks[p])
    && h'.lo == h.lo && h'.hi == h.hi && h'.epi == h.epi
  }

  /** Writing header and footer of one free block gives the tags of a heap that differs there. */
  lemma RetagFree(m: Mem, m': Mem, h: Heap, h': Heap, r: int, w: Word)
    requires Tags(m, h) && Tiled(h') && IsFree(h', r) && OthersSame(h, h', r)
    requires w == Header(h'.blocks[r]) && Wrote(m, m', r - 4, End(h', r) - 8, w)
    ensures Tags(m', h')
  {
    SizeFits(h', r);
    forall p | p in h'.blocks
      ensures TagAt(m', h', p)
    {
      assert Placed(h', p) && Placed(h', r);
      if p != r {
        assert TagAt(m, h, p);
      }
    }
    assert Placed(h', r);
  }

  lemma TagParts(size: int, flags: int)
    requires size % 8 == 0 && 0 <= flags < 4 && 0 <= size && size + flags < WORD_SPAN
    ensures GetSize(size + flags) == size
    ensures GetAlloc(size + flags) == flags % 2
    ensures GetPrevAlloc(size + flags) == (if flags >= 2 then PREVALLOC else 0)
  {
    var k := size / 8;
    Mod4(size + flags, 2 * k, flags);
    Mod2(size + flags, 4 * k + flags / 2, flags % 2);
    Mod2(4 * k + flags / 2, 2 * k, flags / 2);
  }

  /** Reading a header back. */
  lemma HeaderParts(b: Block)
    requires b.size % 8 == 0 && 0 <= b.size && b.size + 3 < WORD_SPAN
    ensures 0 <= Header(b) < WORD_SPAN
    ensures GetSize(Header(b)) == b.size
    ensures GetAlloc(Header(b)) == (if b.alloc then 1 else 0)
    ensures GetPrevAlloc(Header(b)) == (if b.prev then PREVALLOC else 0)
  {
    TagParts(b.size, Flags(b.alloc, b.prev));
  }

  lemma SizeFits(h: Heap, p: int)
    requires Tiled(h) && p in h.blocks
    ensures h.blocks[p].size % 8 == 0 && 16 <= h.blocks[p].size && h.blocks[p].size + 3 < WORD_SPAN
    ensures 0 <= Header(h.blocks[p]) < WORD_SPAN && GetSize(Header(h.blocks[p])) == h.blocks[p].size
  {
    assert Placed(h, p);
    HeaderParts(h.blocks[p]);
  }

  /** What the macros read at block `p`. */
  lemma ReadTags(m: Mem, h: Heap, p: int)
    requires Tiled(h) && Tags(m, h) && p in h.blocks
    ensures GetSize(Rd(m, p - 4)) == h.blocks[p].size
    ensures GetAlloc(Rd(m, p - 4)) == (if h.blocks[p].alloc then 1 else 0)
    ensures GetPrevAlloc(Rd(m, p - 4)) == (if h.blocks[p].prev then PREVALLOC else 0)
  {
    assert Placed(h, p) && TagAt(m, h, p);
    HeaderParts(h.blocks[p]);
  }

  /** GET_NEXTALLOC is zero exactly when the next block is free; the epilogue counts as allocated. */
  lemma ReadNext(m: Mem, h: Heap, p: int)
    requires Tiled(h) && Tags(m, h) && p in h.blocks
    ensures GetAlloc(Rd(m, End(h, p) - 4)) == 0 <==> NextFree(h, p)
  {
    assert Adjoins(h, p);
    if End(h, p) in h.blocks {
      ReadTags(m, h, End(h, p));
    } else {
      TagParts(EPILOGUE, Flags(true, h.epi));
    }
  }

  lemma ReadFooter(m: Mem, h: Heap, q: int)
    requires Tags(m, h) && IsFree(h, q)
    ensures GetSize(Rd(m, End(h, q) - 8)) == h.blocks[q].size
  {
  }

  /** When the PREVALLOC bit is clear, GET_PREVBLOCK finds the block before. */
  lemma ReadPrev(m: Mem, h: Heap, p: int)
    requires Tiled(h) && BitsSound(h) && Tags(m, h) && p in h.blocks && !h.blocks[p].prev
    ensures p - GetSize(Rd(m, p - 8)) == MergePoint(h, p)
  {
  }

  /** Writing the tags of a free block that spans unlisted free space, from block `r` to the end
      of block `n`: the memory then represents the heap with that one block. */
  lemma SpanRep(m: Mem, m': Mem, f: seq<int>, h0: Heap, h: Heap, x: set<int>, h': Heap, r: int, n: int, w: Word)
    requires Tags(m, h0) && OthersSame(h0, h', r)
    requires Sound(h, x) && Chains(m, f, h.lists) && h'.lists == h.lists
    requires r in x && n in x && r in h.blocks && n in h.blocks
    requires Tiled(h') && IsFree(h', r) && End(h', r) == End(h, n) && w == Header(h'.blocks[r])
    requires Wrote(m, m', r - 4, End(h, n) - 8, w)
    ensures Rep(m', f, h') && Kept(m, m', h)
  {
    RetagFree(m, m', h0, h', r, w);
    assert Placed(h, r) && Placed(h, n);
    ClearInside(h, x, r, r - 4);
    ClearInside(h, x, n, End(h, n) - 8);
    ClearWrite(m, m', f, h, x, r - 4, End(h, n) - 8, w);
  }
}
