/** Sums over the live requests, and why they stay below the size of the heap. */
module Usage {
  import opened HeapSpec
  import opened Steps

  lemma Inhabited(s: set<int>)
    requires |s| > 0
    ensures exists k :: k in s
  {
    assert (forall k :: k !in s) ==> s == {};
  }

  ghost function Pick(s: set<int>): (k: int)
    requires |s| > 0
    ensures k in s
  {
    Inhabited(s);
    var k :| k in s;
    k
  }

  /** The sum of all values of a map. */
  ghost function Total(m: map<int, int>): int
    decreases |m.Keys|
  {
    if |m.Keys| == 0 then 0
    else m[Pick(m.Keys)] + Total(m - {Pick(m.Keys)})
  }

  lemma {:induction false} TotalRemove(m: map<int, int>, k: int)
    requires k in m
    ensures Total(m) == m[k] + Total(m - {k})
    decreases |m.Keys|
  {
    assert m.Keys != {};
    var j := Pick(m.Keys);
    assert (m - {j}).Keys == m.Keys - {j} && (m - {k}).Keys == m.Keys - {k};
    if j != k {
      TotalRemove(m - {j}, k);
      TotalRemove(m - {k}, j);
      assert m - {j} - {k} == m - {k} - {j};
    }
  }

  lemma TotalAdd(m: map<int, int>, k: int, v: int)
    requires k !in m
    ensures Total(m[k := v]) == Total(m) + v
  {
    TotalRemove(m[k := v], k);
    assert m[k := v] - {k} == m;
  }

  lemma {:induction false} TotalAtLeastZero(m: map<int, int>)
    requires forall k :: k in m ==> m[k] >= 0
    ensures Total(m) >= 0
    decreases |m.Keys|
  {
    if |m.Keys| > 0 {
      TotalAtLeastZero(m - {Pick(m.Keys)});
    }
  }

  lemma {:induction false} Greatest(s: set<int>) returns (k: int)
    requires |s| > 0
    ensures k in s && forall j :: j in s ==> j <= k
    decreases |s|
  {
    var a := Pick(s);
    var t := s - {a};
    assert forall j :: j in s ==> j == a || j in t;
    k := a;
    if |t| > 0 {
      var b := Greatest(t);
      k := if a < b then b else a;
    }
  }

  /** The ranges [p, p + m[p] + 4) lie apart from each other inside [lo, hi). */
  ghost predicate Packed(m: map<int, int>, lo: int, hi: int) {
    && (forall p :: p in m ==> lo <= p && m[p] >= 0 && p + m[p] + 4 <= hi)
    && (forall p, q :: p in m && q in m && p < q ==> p + m[p] + 4 <= q)
  }

  lemma {:induction false} PackedTotal(m: map<int, int>, lo: int, hi: int)
    requires Packed(m, lo, hi) && lo <= hi
    ensures Total(m) + 4 * |m| <= hi - lo
    decreases |m|
  {
    if |m| > 0 {
      assert |m.Keys| == |m|;
      var k := Greatest(m.Keys);
      assert Packed(m - {k}, lo, k);
      PackedTotal(m - {k}, lo, k);
      TotalRemove(m, k);
      assert (m - {k}).Keys == m.Keys - {k};
    }
  }

  /** The live requests, each with its header word, fit into the heap behind the prologue; so their
      sum is strictly below mem_heapsize(). */
  lemma LiveBelowHeap(h: Heap)
    requires Quiescent(h)
    ensures Total(h.req) + 4 * |h.req| <= h.hi - h.lo
    ensures Total(h.req) < h.hi - (h.lo - 16)
  {
    forall p | p in h.req
      ensures h.lo <= p && h.req[p] >= 0 && p + h.req[p] + 4 <= h.hi
    {
      RequestFits(h, p);
    }
    forall p, q | p in h.req && q in h.req && p < q
      ensures p + h.req[p] + 4 <= q
    {
      RequestFits(h, p);
      RequestFits(h, q);
    }
    PackedTotal(h.req, h.lo, h.hi);
  }
}
