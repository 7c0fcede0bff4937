/** fcyc.c: the K-best sampler.  Samples are reals; the measured values are an arbitrary input. */
module Sampler {

  ghost predicate Ascending(s: seq<real>) {
    forall j, k :: 0 <= j < k < |s| ==> s[j] <= s[k]
  }

  /** Insert behind all elements that are not larger, as the swapping loop of add_sample does. */
  function Insert(s: seq<real>, v: real): (r: seq<real>)
    ensures |r| == |s| + 1
  {
    if s == [] || s[|s| - 1] <= v then s + [v]
    else Insert(s[..|s| - 1], v) + [s[|s| - 1]]
  }

  /** All samples in ascending order. */
  function Sorted(s: seq<real>): (r: seq<real>)
    ensures |r| == |s|
  {
    if s == [] then [] else Insert(Sorted(s[..|s| - 1]), s[|s| - 1])
  }

  function Take(s: seq<real>, k: nat): seq<real> {
    if |s| <= k then s else s[..k]
  }

  /** The `k` smallest samples in ascending order; all of them when there are no more than `k`. */
  function Best(s: seq<real>, k: nat): seq<real> {
    Take(Sorted(s), k)
  }

  lemma {:induction false} InsertMembers(s: seq<real>, v: real)
    ensures multiset(Insert(s, v)) == multiset(s) + multiset{v}
  {
    if s != [] && s[|s| - 1] > v {
      InsertMembers(s[..|s| - 1], v);
      assert s == s[..|s| - 1] + [s[|s| - 1]];
    }
  }

  lemma {:induction false} InsertAscending(s: seq<real>, v: real)
    requires Ascending(s)
    ensures Ascending(Insert(s, v))
  {
    if s != [] && s[|s| - 1] > v {
      var t, x := s[..|s| - 1], s[|s| - 1];
      InsertAscending(t, v);
      InsertMembers(t, v);
      forall y | y in Insert(t, v)
        ensures y <= x
      {
        assert y in multiset(t) + multiset{v};
      }
      AscendingLast(Insert(t, v), x);
    }
  }

  lemma AscendingLast(r: seq<real>, x: real)
    requires Ascending(r) && forall y :: y in r ==> y <= x
    ensures Ascending(r + [x])
  {
    assert forall j :: 0 <= j < |r| ==> r[j] in r;
  }

  /** Sorted is a sort: ascending, and the same samples with the same multiplicities. */
  lemma {:induction false} SortedIsSort(s: seq<real>)
    ensures Ascending(Sorted(s)) && multiset(Sorted(s)) == multiset(s)
  {
    if s != [] {
      var t, v := s[..|s| - 1], s[|s| - 1];
      SortedIsSort(t);
      InsertAscending(Sorted(t), v);
      InsertMembers(Sorted(t), v);
      assert s == t + [v];
    }
  }

  /** The best `k` are an ascending prefix of the sorted samples: as a multiset they are among the
      samples, and nothing left out is smaller than anything kept. */
  lemma BestAreSmallest(s: seq<real>, k: nat)
    ensures Ascending(Best(s, k)) && |Best(s, k)| == (if |s| <= k then |s| else k)
    ensures multiset(Best(s, k)) <= multiset(s)
    ensures forall x, y :: x in Best(s, k) && y in multiset(s) - multiset(Best(s, k)) ==> x <= y
  {
    SortedIsSort(s);
    var r := Sorted(s);
    if |s| > k {
      SplitAt(r, k);
    } else {
      assert multiset(s) - multiset(r) == multiset{};
    }
  }

  lemma SplitAt(r: seq<real>, k: nat)
    requires Ascending(r) && k <= |r|
    ensures multiset(r) == multiset(r[..k]) + multiset(r[k..])
    ensures forall x, y :: x in r[..k] && y in multiset(r) - multiset(r[..k]) ==> x <= y
  {
    assert r == r[..k] + r[k..];
    assert multiset(r) - multiset(r[..k]) == multiset(r[k..]);
    forall x, y | x in r[..k] && y in r[k..]
      ensures x <= y
    {
      Below(r, k, x, y);
    }
  }

  lemma Below(r: seq<real>, k: nat, x: real, y: real)
    requires Ascending(r) && k <= |r| && x in r[..k] && y in r[k..]
    ensures x <= y
  {
  }

  /** The least sample is the first of the best. */
  lemma BestFirst(s: seq<real>, k: nat)
    requires s != [] && k >= 1
    ensures Best(s, k) != [] && Best(s, k)[0] in s && forall x :: x in s ==> Best(s, k)[0] <= x
  {
    SortedIsSort(s);
    var r := Sorted(s);
    assert r[0] in multiset(r);
    forall x | x in s
      ensures r[0] <= x
    {
      assert x in multiset(s);
      assert x in r;
    }
  }

  /** Only the best `k` so far matter for the best `k` after one more sample: a value that is not
      below the last of them changes nothing, any other one is inserted and the last one dropped. */
  lemma {:induction false} TakeInsert(s: seq<real>, v: real, k: nat)
    requires Ascending(s) && 1 <= k <= |s|
    ensures Take(Insert(s, v), k) == if v < s[k - 1] then Insert(s[..k - 1], v) else s[..k]
  {
    if s[|s| - 1] <= v {
      assert s[k - 1] <= s[|s| - 1];
    } else if |s| == k {
      assert Insert(s, v) == Insert(s[..k - 1], v) + [s[k - 1]];
    } else {
      var t := s[..|s| - 1];
      TakeInsert(t, v, k);
      assert t[..k - 1] == s[..k - 1] && t[..k] == s[..k];
      assert Take(Insert(s, v), k) == Take(Insert(t, v), k);
    }
  }

  /** Where the value goes: behind everything that is not larger. */
  lemma {:induction false} InsertAt(s: seq<real>, v: real, pos: int)
    requires 0 <= pos <= |s| && (pos > 0 ==> s[pos - 1] <= v) && forall j :: pos <= j < |s| ==> s[j] > v
    ensures Insert(s, v) == s[..pos] + [v] + s[pos..]
  {
    if pos < |s| {
      var t := s[..|s| - 1];
      InsertAt(t, v, pos);
      assert t[..pos] == s[..pos];
      assert s[pos..] == t[pos..] + [s[|s| - 1]];
    }
  }

  /** The largest value within the tolerance of `m`. */
  function Tolerated(epsilon: real, m: real): real {
    (1.0 + epsilon) * m
  }

  /** The k smallest samples lie within the tolerance. */
  ghost predicate Converged(s: seq<real>, k: int, epsilon: real) {
    k >= 1 && |s| >= k && Tolerated(epsilon, Best(s, k)[0]) >= Best(s, k)[k - 1]
  }

  // ---- what convergence means ---------------------------------------------------------------------

  /** The samples that are not above `t`. */
  ghost function AtMost(s: seq<real>, t: real): set<int> {
    set i | 0 <= i < |s| && s[i] <= t
  }

  lemma AtMostLast(s: seq<real>, x: real, t: real)
    ensures |AtMost(s + [x], t)| == |AtMost(s, t)| + (if x <= t then 1 else 0)
  {
    var a, b := AtMost(s, t), AtMost(s + [x], t);
    assert b == if x <= t then a + {|s|} else a;
  }

  lemma {:induction false} AtMostInsert(s: seq<real>, v: real, t: real)
    ensures |AtMost(Insert(s, v), t)| == |AtMost(s, t)| + (if v <= t then 1 else 0)
  {
    if s == [] || s[|s| - 1] <= v {
      AtMostLast(s, v, t);
    } else {
      var u, x := s[..|s| - 1], s[|s| - 1];
      assert s == u + [x];
      AtMostInsert(u, v, t);
      AtMostLast(u, x, t);
      AtMostLast(Insert(u, v), x, t);
    }
  }

  /** Sorting does not change how many samples are not above `t`. */
  lemma {:induction false} AtMostSorted(s: seq<real>, t: real)
    ensures |AtMost(Sorted(s), t)| == |AtMost(s, t)|
  {
    if s != [] {
      var u, x := s[..|s| - 1], s[|s| - 1];
      assert s == u + [x];
      AtMostSorted(u, t);
      AtMostInsert(Sorted(u), x, t);
      AtMostLast(u, x, t);
    }
  }

  /** In ascending order the samples that are not above `t` come first. */
  lemma {:induction false} AtMostAscending(r: seq<real>, t: real, k: nat)
    requires Ascending(r) && 1 <= k <= |r|
    ensures |AtMost(r, t)| >= k <==> r[k - 1] <= t
  {
    var u, x := r[..|r| - 1], r[|r| - 1];
    assert r == u + [x];
    AtMostLast(u, x, t);
    if k < |r| {
      AtMostAscending(u, t, k);
      assert x <= t ==> r[k - 1] <= t;
    } else {
      AtMostBound(u, t);
    }
  }

  lemma {:induction false} AtMostBound(s: seq<real>, t: real)
    ensures |AtMost(s, t)| <= |s|
    ensures (forall i :: 0 <= i < |s| ==> s[i] <= t) ==> |AtMost(s, t)| == |s|
  {
    if s == [] {
      assert AtMost(s, t) == {};
    } else {
      var u, x := s[..|s| - 1], s[|s| - 1];
      assert s == u + [x];
      AtMostBound(u, t);
      AtMostLast(u, x, t);
    }
  }

  ghost predicate IsLeast(s: seq<real>, m: real) {
    m in s && forall x :: x in s ==> m <= x
  }

  /** At least `k` samples are within the tolerance of the least one, `m`. */
  ghost predicate WithinLeast(s: seq<real>, k: int, epsilon: real, m: real) {
    IsLeast(s, m) && |AtMost(s, (1.0 + epsilon) * m)| >= k
  }

  /** The samples have converged exactly when at least `k` of them are within the tolerance of the least. */
  lemma ConvergedIff(s: seq<real>, k: int, epsilon: real)
    requires k >= 1
    ensures Converged(s, k, epsilon) <==>
      exists m :: WithinLeast(s, k, epsilon, m)
  {
    if s != [] {
      SortedIsSort(s);
      BestFirst(s, k);
      var m := Best(s, k)[0];
      OneLeast(s, k, epsilon, m);
      hide WithinLeast, Converged;
      CountedFromLeast(s, k, epsilon, m);
    }
  }

  lemma OneLeast(s: seq<real>, k: int, epsilon: real, m: real)
    requires IsLeast(s, m)
    ensures forall m' :: WithinLeast(s, k, epsilon, m') ==> m' == m
  {
  }

  lemma CountedFromLeast(s: seq<real>, k: nat, epsilon: real, m: real)
    requires s != [] && k >= 1 && Best(s, k) != [] && m == Best(s, k)[0] && IsLeast(s, m)
    requires Ascending(Sorted(s))
    ensures Converged(s, k, epsilon) <==> WithinLeast(s, k, epsilon, m)
  {
    var t := Tolerated(epsilon, m);
    assert WithinLeast(s, k, epsilon, m) <==> |AtMost(s, t)| >= k;
    hide Tolerated, WithinLeast;
    AtMostSorted(s, t);
    AtMostBound(s, t);
    hide AtMost;
    if |s| >= k {
      AtMostAscending(Sorted(s), t, k);
      BestAt(s, k);
    }
  }

  lemma BestAt(s: seq<real>, k: nat)
    requires 1 <= k <= |s|
    ensures |Best(s, k)| == k && Best(s, k)[k - 1] == Sorted(s)[k - 1]
  {
  }

  /** The first `n` measurements. */
  ghost function Taken(measured: nat -> real, n: nat): (s: seq<real>)
    ensures |s| == n && forall i :: 0 <= i < n ==> s[i] == measured(i)
  {
    if n == 0 then [] else Taken(measured, n - 1) + [measured(n - 1)]
  }

  lemma TakenStep(measured: nat -> real, n: nat)
    ensures Taken(measured, 0) == [] && Taken(measured, n + 1) == Taken(measured, n) + [measured(n)]
  {
  }

  lemma LeastTaken(measured: nat -> real, n: nat, k: nat)
    requires n >= 1 && k >= 1
    ensures var b := Best(Taken(measured, n), k);
      b != [] && (exists i :: 0 <= i < n && measured(i) == b[0]) && forall i :: 0 <= i < n ==> b[0] <= measured(i)
  {
    hide Best;
    var s := Taken(measured, n);
    BestFirst(s, k);
    var i :| 0 <= i < |s| && s[i] == Best(s, k)[0];
    assert measured(i) == s[i];
    forall j | 0 <= j < n
      ensures Best(s, k)[0] <= measured(j)
    {
      assert s[j] == measured(j) && s[j] in s;
    }
  }

  class KBest {
    var kbest: int
    var maxsamples: int
    var epsilon: real
    var values: array<real>
    var samplecount: int
    /** All samples taken since the sampler was started. */
    ghost var samples: seq<real>

    constructor (k: int, m: int, e: real)
      requires k >= 1
      ensures kbest == k && maxsamples == m && epsilon == e && Valid() && samples == [] && fresh(values)
    {
      kbest, maxsamples, epsilon := k, m, e;
      values := new real[k](_ => 0.0);
      samplecount := 0;
      samples := [];
    }

    ghost predicate Valid()
      reads this, values
    {
      && 1 <= kbest == values.Length && samplecount == |samples|
      && Held() == Best(samples, kbest)
    }

    /** The part of the buffer that is in use. */
    ghost function Held(): seq<real>
      reads this, values
    {
      values[..if samplecount < 0 then 0 else if samplecount < values.Length then samplecount else values.Length]
    }

    /** init_sampler */
    method InitSampler()
      requires kbest >= 1
      modifies this
      ensures Valid() && samples == [] && fresh(values)
      ensures kbest == old(kbest) && maxsamples == old(maxsamples) && epsilon == old(epsilon)
    {
      values := new real[kbest](_ => 0.0);
      samplecount := 0;
      samples := [];
    }

    /** The swapping loop: the element at `pos` sinks to its place in the front of the buffer. */
    method Sink(pos0: int)
      requires 0 <= pos0 < values.Length
      modifies values
      ensures values[..pos0 + 1] == Insert(old(values[..pos0]), old(values[pos0]))
      ensures values[pos0 + 1..] == old(values[pos0 + 1..])
    {
      ghost var s, v := values[..pos0], values[pos0];
      var pos := pos0;
      while pos > 0 && values[pos - 1] > values[pos]
        invariant 0 <= pos <= pos0 && values[pos] == v
        invariant forall j :: 0 <= j < pos ==> values[j] == s[j]
        invariant forall j :: pos < j <= pos0 ==> values[j] == s[j - 1]
        invariant forall j :: pos <= j < pos0 ==> s[j] > v
        invariant forall j :: pos0 < j < values.Length ==> values[j] == old(values[j])
      {
        var temp := values[pos - 1];
        values[pos - 1] := values[pos];
        values[pos] := temp;
        pos := pos - 1;
      }
      InsertAt(s, v, pos);
      assert values[..pos0 + 1] == s[..pos] + [v] + s[pos..];
    }

    /** add_sample while the buffer is not full. */
    method AddFirst(val: real)
      requires Valid() && samplecount < kbest
      modifies this`samplecount, this`samples, values
      ensures Valid() && samples == old(samples) + [val] && samplecount == old(samplecount) + 1
    {
      ghost var s := samples;
      assert (s + [val])[..|s|] == s;
      ghost var held := values[..samplecount];
      assert held == Held() == Sorted(s);
      values[samplecount] := val;
      assert values[..samplecount] == held;
      Sink(samplecount);
      samplecount := samplecount + 1;
      samples := samples + [val];
      assert Held() == values[..samplecount];
    }

    /** add_sample when the buffer is full. */
    method AddLater(val: real)
      requires Valid() && samplecount >= kbest
      modifies this`samplecount, this`samples, values
      ensures Valid() && samples == old(samples) + [val] && samplecount == old(samplecount) + 1
    {
      ghost var s, k := samples, kbest;
      assert (s + [val])[..|s|] == s;
      SortedIsSort(s);
      TakeInsert(Sorted(s), val, k);
      ghost var held := values[..];
      assert Held() == values[..k] == held;
      assert held == Take(Sorted(s), k) == Sorted(s)[..k];
      assert values[k - 1] == Sorted(s)[k - 1];
      if val < values[kbest - 1] {
        values[kbest - 1] := val;
        assert values[..k - 1] == held[..k - 1] == Sorted(s)[..k - 1];
        Sink(kbest - 1);
      }
      samplecount := samplecount + 1;
      samples := samples + [val];
      assert Held() == values[..k];
    }

    /** add_sample: the buffer holds the best of all samples again. */
    method AddSample(val: real)
      requires Valid()
      modifies this`samplecount, this`samples, values
      ensures Valid() && samples == old(samples) + [val] && samplecount == old(samplecount) + 1
    {
      if samplecount < kbest {
        AddFirst(val);
      } else {
        AddLater(val);
      }
    }

    method HasConverged() returns (b: bool)
      requires Valid()
      ensures b <==> Converged(samples, kbest, epsilon)
      ensures b <==> exists m :: WithinLeast(samples, kbest, epsilon, m)
    {
      ConvergedIff(samples, kbest, epsilon);
      assert samplecount >= kbest ==> values[0] == Held()[0] && values[kbest - 1] == Held()[kbest - 1];
      b := samplecount >= kbest && (1.0 + epsilon) * values[0] >= values[kbest - 1];
    }

    /** fcyc: sample until the best have converged or the limit is reached, at least once, and return
        the least measurement.  Measurement number `i` is `measured(i)`. */
    method Fcyc(measured: nat -> real) returns (result: real, n: nat)
      requires kbest >= 1
      modifies this
      ensures 1 <= n && (n == 1 || n <= old(maxsamples))
      ensures Converged(Taken(measured, n), old(kbest), old(epsilon)) || n >= old(maxsamples)
      ensures forall i :: 1 <= i < n ==> !Converged(Taken(measured, i), old(kbest), old(epsilon))
      ensures exists i :: 0 <= i < n && measured(i) == result
      ensures forall i :: 0 <= i < n ==> result <= measured(i)
    {
      hide Best, Converged, Taken;
      TakenStep(measured, 0);
      InitSampler();
      n := 0;
      var more := true;
      while more
        invariant Valid() && fresh(values)
        invariant kbest == old(kbest) && maxsamples == old(maxsamples) && epsilon == old(epsilon)
        invariant samples == Taken(measured, n) && samplecount == n
        invariant n == 0 ==> more
        invariant n > 0 ==> more == (!Converged(Taken(measured, n), kbest, epsilon) && n < maxsamples)
        invariant n == 0 || n == 1 || n <= maxsamples
        invariant forall i :: 1 <= i < n ==> !Converged(Taken(measured, i), kbest, epsilon)
        decreases if n == 0 then 1 else 0, maxsamples - n
      {
        AddSample(measured(n));
        TakenStep(measured, n);
        n := n + 1;
        var done := HasConverged();
        more := !done && samplecount < maxsamples;
      }
      result := values[0];
      assert result == Held()[0];
      LeastTaken(measured, n, kbest);
    }
  }
}
