/** calc_list_index: which of the seventeen free lists holds blocks of a given size. */
module SizeClass {

  const FREELIST_COUNT: nat := 17

  function Pow2(k: nat): (r: nat)
    ensures r >= 1
  {
    if k == 0 then 1 else 2 * Pow2(k - 1)
  }

  function Log2(n: nat): nat {
    if n <= 1 then 0 else 1 + Log2(n / 2)
  }

  function ListIndex(size: nat): (i: nat)
    ensures i < FREELIST_COUNT
  {
    if Log2(size) < 16 then Log2(size) else 16
  }

  /** Log2 is the floor of the binary logarithm. */
  lemma {:induction false} Log2Bounds(n: nat)
    requires n >= 1
    ensures Pow2(Log2(n)) <= n < Pow2(Log2(n) + 1)
  {
    if n > 1 {
      Log2Bounds(n / 2);
    }
  }

  lemma {:induction false} Pow2Monotone(j: nat, k: nat)
    requires j <= k
    ensures Pow2(j) <= Pow2(k)
    decreases k
  {
    if j < k {
      Pow2Monotone(j, k - 1);
    }
  }

  lemma {:induction false} Log2Monotone(m: nat, n: nat)
    requires m <= n
    ensures Log2(m) <= Log2(n)
  {
    if m > 1 {
      Log2Monotone(m / 2, n / 2);
    }
  }

  /** A larger block never sits on a lower list, so any block of a higher list is strictly
      larger than any request of a lower class. */
  lemma ListIndexMonotone(m: nat, n: nat)
    ensures m <= n ==> ListIndex(m) <= ListIndex(n)
    ensures ListIndex(m) < ListIndex(n) ==> m < n
  {
    if m <= n {
      Log2Monotone(m, n);
    } else {
      Log2Monotone(n, m);
    }
  }

  /** The size class below 16 is the power-of-two band of the size; class 16 is everything above. */
  lemma ListIndexBand(size: nat)
    requires size >= 1
    ensures Pow2(ListIndex(size)) <= size
    ensures ListIndex(size) < 16 ==> size < Pow2(ListIndex(size) + 1)
  {
    Log2Bounds(size);
    if Log2(size) >= 16 {
      Pow2Monotone(16, Log2(size));
    }
  }

  /** `n >> k` */
  function Shr(n: nat, k: nat): nat {
    if k == 0 then n else Shr(n, k - 1) / 2
  }

  lemma {:induction false} ShrLog2(n: nat, k: nat)
    requires k <= Log2(n)
    ensures Log2(Shr(n, k)) == Log2(n) - k
  {
    if k > 0 {
      ShrLog2(n, k - 1);
    }
  }

  method CalcListIndex(size: nat) returns (bits: nat)
    ensures bits == ListIndex(size)
  {
    bits := 0;
    while Shr(size, bits) > 1 && bits + 1 < FREELIST_COUNT
      invariant bits <= 16 && bits <= Log2(size)
    {
      ShrLog2(size, bits);
      bits := bits + 1;
    }
    ShrLog2(size, bits);
  }
}
