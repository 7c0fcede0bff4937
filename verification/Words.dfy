/** The 32-bit words, tag bits and size macros of mm.c, with words seen also as four
    little-endian bytes.  All arithmetic that C does in `unsigned int` or `size_t` is written
    out modulo 2^32. */
module Words {

  const WORD_SPAN: int := 0x1_0000_0000

  /** The largest request for which the size computation does not wrap around. */
  const MAX_REQUEST: int := WORD_SPAN - 12

  type Word = w: int | 0 <= w < 0x1_0000_0000

  type Byte = b: int | 0 <= b < 256

  /** Memory as seen through word-aligned addresses. */
  type Mem = map<int, Word>

  /** The word at address `a`; a total read, so that specifications need no domain conditions. */
  function Rd(m: Mem, a: int): Word {
    if a in m then m[a] else 0
  }

  // ---- tag words -------------------------------------------------------------------------

  const THISALLOC: int := 1
  const PREVALLOC: int := 2

  /** PACK: the size is a multiple of four and the flags are below four, so `|` adds. */
  function Pack(size: int, flags: int): int
    requires size % 4 == 0 && 0 <= flags < 4
  {
    size + flags
  }

  /** `w & ~(THISALLOC | PREVALLOC)` */
  function GetSize(w: Word): Word {
    w - w % 4
  }

  /** `w & THISALLOC` */
  function GetAlloc(w: Word): int {
    w % 2
  }

  /** `w & PREVALLOC` */
  function GetPrevAlloc(w: Word): int {
    if (w / 2) % 2 == 1 then PREVALLOC else 0
  }

  /** `w | PREVALLOC` */
  function OrPrevAlloc(w: Word): Word {
    if (w / 2) % 2 == 1 then w else w + PREVALLOC
  }

  lemma Mod2(n: int, q: int, r: int)
    requires n == 2 * q + r && 0 <= r < 2
    ensures n / 2 == q && n % 2 == r
  {
  }

  lemma Mod4(n: int, q: int, r: int)
    requires n == 4 * q + r && 0 <= r < 4
    ensures n / 4 == q && n % 4 == r
  {
  }

  lemma Mod8(n: int, q: int, r: int)
    requires n == 8 * q + r && 0 <= r < 8
    ensures n / 8 == q && n % 8 == r
  {
  }

  lemma AlignedSum(a: int, b: int)
    requires a % 8 == 0 && b % 8 == 0
    ensures (a + b) % 8 == 0 && (a - b) % 8 == 0
  {
  }

  /** The word that holds byte `a` does not start before a word boundary below it. */
  lemma WordBelow(a: int, s: int)
    requires s % 4 == 0 && s <= a
    ensures s <= a - a % 4 <= a && (a - a % 4) % 4 == 0
  {
    var k, j := a / 4, s / 4;
    assert a - a % 4 == 4 * k && s == 4 * j;
    Mod4(4 * k, k, 0);
  }

  /** A byte outside the word at `d` lies in another word. */
  lemma WordsApart(a: int, d: int)
    requires d % 4 == 0 && !(d <= a < d + 4)
    ensures a - a % 4 != d
  {
  }

  lemma AlignedDown(p: int)
    requires p % 8 == 0
    ensures p % 4 == 0 && (p + 4) % 4 == 0 && (p - 4) % 4 == 0 && (p - 8) % 4 == 0
  {
  }

  // ---- request sizes ---------------------------------------------------------------------

  /** ALIGN: add seven and clear the low three bits, in 32 bits. */
  function Align(size: Word): Word {
    var t := (size + 7) % WORD_SPAN;
    t - t % 8
  }

  /** ADJUST_WORDCOUNT: at least three, and odd. */
  function AdjustWordCount(n: Word): Word {
    if n < 3 then 3 else (n + (1 - n % 2)) % WORD_SPAN
  }

  /** ADJUST_BYTESIZE: the block size, header included, that serves a request. */
  function AdjustByteSize(size: Word): Word {
    Align((AdjustWordCount(((size + 3) % WORD_SPAN) / 4) * 4) % WORD_SPAN)
  }

  function Min(x: int, y: int): int {
    if x < y then x else y
  }

  function Max(x: int, y: int): int {
    if x > y then x else y
  }

  /** An odd number of words, at least three and at most one more than asked for. */
  lemma OddCount(n: Word) returns (e: nat)
    requires n <= WORD_SPAN / 4 - 3
    ensures AdjustWordCount(n) == 2 * e + 1 && 1 <= e
    ensures if n < 3 then e == 1 else n <= 2 * e + 1 <= n + 1
  {
    e := if n < 3 then 1 else n / 2;
  }

  lemma AlignWords(e: nat)
    requires 8 * e + 11 < WORD_SPAN
    ensures Align(8 * e + 4) == 8 * (e + 1)
  {
    Mod8(8 * e + 11, e + 1, 3);
  }

  /** Up to MAX_REQUEST the adjusted size is the least multiple of eight that holds the header
      and the request and is not below the minimum block size. */
  lemma AdjustIsLeast(size: Word)
    requires 1 <= size <= MAX_REQUEST
    ensures AdjustByteSize(size) % 8 == 0
    ensures Max(16, size + 4) <= AdjustByteSize(size) < Max(16, size + 4) + 8
  {
    hide Align, AdjustWordCount;
    var n := (size + 3) / 4;
    assert 4 * n <= size + 3 < 4 * n + 4;
    var e := OddCount(n);
    AlignWords(e);
    assert AdjustByteSize(size) == 8 * (e + 1);
    Mod8(8 * (e + 1), e + 1, 0);
  }

  /** The block serves the request exactly when the request is at most MAX_REQUEST: one byte
      more and the computation wraps to zero, and the last three sizes of all wrap to 16. */
  lemma AdjustServesIff(size: Word)
    requires 1 <= size
    ensures AdjustByteSize(size) >= size + 4 <==> size <= MAX_REQUEST
    ensures size > MAX_REQUEST ==> AdjustByteSize(size) == (if size < WORD_SPAN - 3 then 0 else 16)
  {
    if size <= MAX_REQUEST {
      AdjustIsLeast(size);
    } else if size < WORD_SPAN - 3 {
      var n := (size + 3) / 4;
      assert (size + 3) % WORD_SPAN == size + 3;
      assert n == WORD_SPAN / 4 - 2 || n == WORD_SPAN / 4 - 1;
      assert AdjustWordCount(n) == WORD_SPAN / 4 - 1;
    } else {
      assert (size + 3) % WORD_SPAN == size + 3 - WORD_SPAN;
    }
  }

  // ---- bytes -----------------------------------------------------------------------------

  /** Byte `k` of a word, little-endian. */
  function ByteOf(w: Word, k: int): Byte
    requires 0 <= k < 4
  {
    if k == 0 then w % 256
    else if k == 1 then w / 256 % 256
    else if k == 2 then w / 65536 % 256
    else w / 16777216
  }

  /** The word `w` with byte `k` replaced. */
  function WithByte(w: Word, k: int, b: Byte): Word
    requires 0 <= k < 4
  {
    if k == 0 then w - ByteOf(w, 0) + b
    else if k == 1 then w - ByteOf(w, 1) * 256 + b * 256
    else if k == 2 then w - ByteOf(w, 2) * 65536 + b * 65536
    else w - ByteOf(w, 3) * 16777216 + b * 16777216
  }

  /** The four bytes of a word, as a weighted sum. */
  lemma ByteSum(w: Word)
    ensures w == ByteOf(w, 0) + ByteOf(w, 1) * 256 + ByteOf(w, 2) * 65536 + ByteOf(w, 3) * 16777216
  {
    var a, b, c := w / 256, w / 65536, w / 16777216;
    NextByte(w, a);
    NextByte(a, b);
    NextByte(b, c);
  }

  /** The quotients by the powers of 256 are quotients by 256 of each other. */
  lemma NextByte(n: nat, q: nat)
    requires q == n / 256
    ensures n == 256 * q + n % 256 && n / 65536 == q / 256 && n / 16777216 == q / 65536
  {
  }

  lemma BytesOfSum(w: Word, b0: Byte, b1: Byte, b2: Byte, b3: Byte)
    requires w == b0 + b1 * 256 + b2 * 65536 + b3 * 16777216
    ensures ByteOf(w, 0) == b0 && ByteOf(w, 1) == b1 && ByteOf(w, 2) == b2 && ByteOf(w, 3) == b3
  {
    assert w / 16777216 == b3;
    assert w / 65536 == b2 + b3 * 256;
    assert w / 256 == b1 + b2 * 256 + b3 * 65536;
  }

  lemma ByteOfWithByte(w: Word, k: int, b: Byte, j: int)
    requires 0 <= k < 4 && 0 <= j < 4
    ensures ByteOf(WithByte(w, k, b), j) == if j == k then b else ByteOf(w, j)
  {
    ByteSum(w);
    BytesOfSum(WithByte(w, k, b),
               if k == 0 then b else ByteOf(w, 0), if k == 1 then b else ByteOf(w, 1),
               if k == 2 then b else ByteOf(w, 2), if k == 3 then b else ByteOf(w, 3));
  }

  /** The byte at any address. */
  function RdByte(m: Mem, a: int): Byte {
    ByteOf(Rd(m, a - a % 4), a % 4)
  }

  /** Writing one byte into its word changes that byte and no other. */
  lemma PutByte(m: Mem, a: int, b: Byte, c: int)
    ensures var m' := m[a - a % 4 := WithByte(Rd(m, a - a % 4), a % 4, b)];
      RdByte(m', c) == if c == a then b else RdByte(m, c)
  {
    hide WithByte, ByteOf;
    if c - c % 4 == a - a % 4 {
      ByteOfWithByte(Rd(m, a - a % 4), a % 4, b, c % 4);
    }
  }

  /** Words that lie wholly outside [p, p + n) are unchanged. */
  ghost predicate OutsideSame(m: Mem, m': Mem, p: int, n: int) {
    forall w :: w + 4 <= p || p + n <= w ==> Rd(m', w) == Rd(m, w)
  }

  /** The `n` bytes from address `p`. */
  function Bytes(m: Mem, p: int, n: int): (s: seq<int>)
    requires 0 <= n
    ensures |s| == n && forall k :: 0 <= k < n ==> s[k] == RdByte(m, p + k)
  {
    seq(n, (k: int) requires 0 <= k < n => RdByte(m, p + k))
  }
}
