/** memlib.c: the simulated memory system.  One region of MAX_HEAP bytes, held as 32-bit words,
    with a break that only moves up. */
module Memlib {
  import opened Words

  const MAX_HEAP: int := 20 * 0x10_0000

  class MemLib {
    const words: array<Word>
    var startBrk: int
    var brk: int
    var maxAddr: int

    /** The contents of the region, by address. */
    ghost var view: Mem

    constructor ()
      ensures words.Length == MAX_HEAP / 4 && fresh(words)
    {
      words := new Word[MAX_HEAP / 4];
    }

    predicate InRegion(a: int)
      reads this`startBrk, this`maxAddr
    {
      startBrk <= a < maxAddr && a % 4 == 0
    }

    /** A word below the break.  Only these are ever read or written. */
    predicate InHeap(a: int)
      reads this`startBrk, this`brk
    {
      startBrk <= a < brk && a % 4 == 0
    }

    /** The region is 8-aligned and lies inside the 32-bit address space, above NULL; the break lies
        inside it. */
    predicate Placed()
      reads this`startBrk, this`brk, this`maxAddr
    {
      && words.Length == MAX_HEAP / 4
      && 8 <= startBrk && startBrk % 8 == 0
      && maxAddr == startBrk + MAX_HEAP < WORD_SPAN
      && startBrk <= brk <= maxAddr
    }

    ghost predicate Tied(a: int)
      requires Placed()
      reads this`startBrk, this`brk, this`maxAddr, this`view, words
    {
      InRegion(a) ==> a in view && view[a] == words[(a - startBrk) / 4]
    }

    ghost predicate Mapped()
      reads this`startBrk, this`brk, this`maxAddr, this`view, words
    {
      Placed() && forall a {:trigger Tied(a)} :: Tied(a)
    }

    /** mem_init: `region` is the address that the system's malloc returned. */
    method MemInit(region: int)
      requires words.Length == MAX_HEAP / 4
      requires 8 <= region && region % 8 == 0 && region + MAX_HEAP < WORD_SPAN
      modifies this
      ensures Mapped() && Placed() && startBrk == brk == region
    {
      startBrk := region;
      maxAddr := startBrk + MAX_HEAP;
      brk := startBrk;
      view := map a | startBrk <= a < maxAddr && a % 4 == 0 :: words[(a - startBrk) / 4];
    }

    method MemResetBrk()
      modifies this`brk
      ensures brk == startBrk
    {
      brk := startBrk;
    }

    /** mem_sbrk: the old break, or -1 when the increment is negative or does not fit. */
    method MemSbrk(incr: int) returns (r: int)
      modifies this`brk
      ensures incr < 0 || old(brk) + incr > maxAddr ==> r == -1 && brk == old(brk)
      ensures !(incr < 0 || old(brk) + incr > maxAddr) ==> r == old(brk) && brk == old(brk) + incr
      ensures old(Mapped()) ==> Mapped()
    {
      var oldBrk := brk;
      if incr < 0 || brk + incr > maxAddr {
        return -1;
      }
      brk := brk + incr;
      if old(Mapped()) {
        BreakMoved();
      }
      return oldBrk;
    }

    /** The contents of the region do not depend on the break. */
    twostate lemma BreakMoved()
      requires old(Mapped()) && startBrk <= brk <= maxAddr
      requires unchanged(this`startBrk, this`maxAddr, this`view, words)
      ensures Mapped()
    {
      forall a
        ensures Tied(a)
      {
        assert old(Tied(a));
      }
    }

    function MemHeapLo(): int
      reads this
    {
      startBrk
    }

    function MemHeapHi(): int
      reads this
    {
      brk - 1
    }

    function MemHeapSize(): int
      reads this
    {
      brk - startBrk
    }

    /** GETW */
    function GetW(a: int): (w: Word)
      requires Mapped() && InHeap(a)
      reads this`startBrk, this`brk, this`maxAddr, this`view, words
      ensures w == Rd(view, a)
    {
      assert Tied(a);
      words[(a - startBrk) / 4]
    }

    /** PUTW */
    method PutW(a: int, w: Word)
      requires Mapped() && InHeap(a)
      modifies words, this`view
      ensures Mapped() && view == old(view)[a := w]
    {
      AlignedDown(startBrk);
      words[(a - startBrk) / 4] := w;
      view := view[a := w];
      forall b
        ensures Tied(b)
      {
        assert old(Tied(b));
        if InRegion(b) {
          SameIndex(a, b, startBrk);
        }
      }
    }

    static lemma SameIndex(a: int, b: int, s: int)
      requires a % 4 == b % 4 == s % 4 == 0
      ensures (a - s) / 4 == (b - s) / 4 ==> a == b
    {
    }

    /** GETB */
    function GetB(a: int): (b: Byte)
      requires Mapped() && startBrk <= a < brk
      reads this`startBrk, this`brk, this`maxAddr, this`view, words
      ensures b == RdByte(view, a)
    {
      AlignedDown(startBrk);
      WordBelow(a, startBrk);
      ByteOf(GetW(a - a % 4), a % 4)
    }

    /** PUTB: one byte changes, and no other. */
    method PutB(a: int, b: Byte)
      requires Mapped() && startBrk <= a < brk
      modifies words, this`view
      ensures Mapped() && OutsideSame(old(view), view, a, 1)
      ensures forall c :: RdByte(view, c) == if c == a then b else RdByte(old(view), c)
    {
      hide RdByte, WithByte;
      AlignedDown(startBrk);
      WordBelow(a, startBrk);
      var w := GetW(a - a % 4);
      PutW(a - a % 4, WithByte(w, a % 4, b));
      forall c
        ensures RdByte(view, c) == if c == a then b else RdByte(old(view), c)
      {
        PutByte(old(view), a, b, c);
      }
    }

    /** memset */
    method MemSet(p: int, b: Byte, n: int)
      requires Mapped() && 0 <= n && startBrk <= p && p + n <= brk
      modifies words, this`view
      ensures forall c :: RdByte(view, c) == if p <= c < p + n then b else RdByte(old(view), c)
      ensures Mapped() && OutsideSame(old(view), view, p, n)
    {
      for i := 0 to n
        invariant forall c :: RdByte(view, c) == if p <= c < p + i then b else RdByte(old(view), c)
        invariant Mapped() && OutsideSame(old(view), view, p, n)
      {
        PutB(p + i, b);
      }
    }

    /** `g` gives the bytes of memory `m`.  Reasoning about a run of byte writes goes through such
        functions, so that it does not depend on how bytes sit inside words. */
    static ghost predicate ByteTie(g: int -> Byte, m: Mem, c: int) {
      g(c) == RdByte(m, c)
    }

    static ghost predicate IsBytes(g: int -> Byte, m: Mem) {
      forall c {:trigger ByteTie(g, m, c)} :: ByteTie(g, m, c)
    }

    static lemma TieStep(g: int -> Byte, m: Mem, m': Mem, a: int, b: Byte) returns (g': int -> Byte)
      requires IsBytes(g, m)
      requires forall c :: RdByte(m', c) == if c == a then b else RdByte(m, c)
      ensures IsBytes(g', m') && forall c :: g'(c) == if c == a then b else g(c)
    {
      g' := c => if c == a then b else g(c);
      forall c
        ensures ByteTie(g', m', c)
      {
        assert ByteTie(g, m, c);
      }
    }

    /** The bytes of `g'` in [dst, dst + n) are those of `g` at `src`; all others agree. */
    static ghost predicate Copied(g: int -> Byte, g': int -> Byte, dst: int, src: int, n: int) {
      forall c :: g'(c) == g(if dst <= c < dst + n then src + (c - dst) else c)
    }

    static lemma CopyStep(g: int -> Byte, g1: int -> Byte, g2: int -> Byte, dst: int, src: int, i: int)
      requires 0 <= i && (src + i < dst || dst + i <= src + i) && Copied(g, g1, dst, src, i)
      requires forall c :: g2(c) == if c == dst + i then g1(src + i) else g1(c)
      ensures Copied(g, g2, dst, src, i + 1)
    {
    }

    static lemma BytesAsFunction(m: Mem) returns (g: int -> Byte)
      ensures IsBytes(g, m)
    {
      g := c => RdByte(m, c);
    }

    static lemma CopiedByte(g: int -> Byte, g': int -> Byte, m: Mem, m': Mem, dst: int, src: int, n: nat, c: int)
      requires IsBytes(g, m) && IsBytes(g', m') && Copied(g, g', dst, src, n)
      ensures RdByte(m', c) == RdByte(m, if dst <= c < dst + n then src + (c - dst) else c)
    {
      assert ByteTie(g', m', c) && ByteTie(g, m, if dst <= c < dst + n then src + (c - dst) else c);
    }

    static lemma CopiedBytes(g: int -> Byte, g': int -> Byte, m: Mem, m': Mem, dst: int, src: int, n: nat)
      requires IsBytes(g, m) && IsBytes(g', m') && Copied(g, g', dst, src, n)
      ensures Bytes(m', dst, n) == Bytes(m, src, n)
    {
      var s, s' := Bytes(m, src, n), Bytes(m', dst, n);
      forall k | 0 <= k < n
        ensures s'[k] == s[k]
      {
        assert ByteTie(g, m, src + k) && ByteTie(g', m', dst + k);
        assert g'(dst + k) == g(src + k);
      }
    }

    /** memcpy on ranges that do not overlap: exactly the bytes of the destination change. */
    method MemCpy(dst: int, src: int, n: int)
      requires Mapped() && 0 <= n
      requires startBrk <= dst && dst + n <= brk && startBrk <= src && src + n <= brk
      requires dst + n <= src || src + n <= dst
      modifies words, this`view
      ensures Bytes(view, dst, n) == Bytes(old(view), src, n)
      ensures forall c :: RdByte(view, c) == RdByte(old(view), if dst <= c < dst + n then src + (c - dst) else c)
      ensures Mapped() && OutsideSame(old(view), view, dst, n)
    {
      ghost var m0 := view;
      ghost var g0 := BytesAsFunction(m0);
      ghost var g := g0;
      for i := 0 to n
        invariant IsBytes(g, view) && Copied(g0, g, dst, src, i)
        invariant Mapped() && OutsideSame(m0, view, dst, n)
      {
        ghost var m := view;
        assert ByteTie(g, m, src + i);
        var b := GetB(src + i);
        PutB(dst + i, b);
        ghost var g' := TieStep(g, m, view, dst + i, b);
        CopyStep(g0, g, g', dst, src, i);
        g := g';
      }
      CopiedBytes(g0, g, m0, view, dst, src, n);
      forall c
        ensures RdByte(view, c) == RdByte(m0, if dst <= c < dst + n then src + (c - dst) else c)
      {
        CopiedByte(g0, g, m0, view, dst, src, n, c);
      }
    }
  }
}
