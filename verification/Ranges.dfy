/** The range list of mdriver.c: a singly linked list of the payload extents the driver believes
    to be live. */
module Ranges {

  /** One payload, first and last byte. */
  datatype Range = Range(lo: int, hi: int)

  datatype RangeCheck = Ok | Misaligned | Outside | Overlaps

  /** The overlap test of add_range. */
  predicate Touches(lo: int, hi: int, r: Range) {
    (r.lo <= lo <= r.hi) || (r.lo <= hi <= r.hi)
  }

  predicate SharesByte(lo: int, hi: int, r: Range) {
    lo <= r.hi && r.lo <= hi
  }

  /** The new range reaches beyond the old one on both sides. */
  predicate Encloses(lo: int, hi: int, r: Range) {
    lo < r.lo && r.hi < hi
  }

  /** The test finds every overlap of two nonempty ranges except one: a new range that reaches beyond
      an old one on both sides. */
  lemma TouchesIff(lo: int, hi: int, r: Range)
    requires lo <= hi
    ensures Touches(lo, hi, r) <==> SharesByte(lo, hi, r) && !Encloses(lo, hi, r)
  {
  }

  /** An overlap that the test does not find. */
  lemma TouchesMisses()
    ensures !Touches(0, 23, Range(8, 15)) && SharesByte(0, 23, Range(8, 15))
    ensures Check([Range(8, 15)], 0, 24, 0, 100) == Ok
  {
    var rs := [Range(8, 15)];
    assert forall k :: 0 <= k < |rs| ==> !Touches(0, 23, rs[k]);
  }

  /** What add_range answers. */
  ghost function Check(rs: seq<Range>, lo: int, size: int, heapLo: int, heapHi: int): RangeCheck {
    var hi := lo + size - 1;
    if lo % 8 != 0 then Misaligned
    else if lo < heapLo || lo > heapHi || hi < heapLo || hi > heapHi then Outside
    else if exists k :: 0 <= k < |rs| && Touches(lo, hi, rs[k]) then Overlaps
    else Ok
  }

  lemma CheckCases(rs: seq<Range>, lo: int, size: int, heapLo: int, heapHi: int)
    ensures var hi := lo + size - 1;
      Check(rs, lo, size, heapLo, heapHi) ==
        if lo % 8 != 0 then Misaligned
        else if lo < heapLo || lo > heapHi || hi < heapLo || hi > heapHi then Outside
        else if exists k :: 0 <= k < |rs| && Touches(lo, hi, rs[k]) then Overlaps else Ok
  {
  }

  /** add_range accepts exactly the payloads that are aligned, lie inside the heap, and share a byte only
      with listed ranges that they enclose on both sides. */
  lemma CheckOkIff(rs: seq<Range>, lo: int, size: int, heapLo: int, heapHi: int)
    requires size > 0
    ensures Check(rs, lo, size, heapLo, heapHi) == Ok <==>
      && lo % 8 == 0 && heapLo <= lo && lo + size - 1 <= heapHi
      && forall r :: r in rs && SharesByte(lo, lo + size - 1, r) ==> Encloses(lo, lo + size - 1, r)
  {
    var hi := lo + size - 1;
    forall k | 0 <= k < |rs|
      ensures Touches(lo, hi, rs[k]) <==> SharesByte(lo, hi, rs[k]) && !Encloses(lo, hi, rs[k])
    {
      TouchesIff(lo, hi, rs[k]);
    }
    hide Touches, SharesByte, Encloses;
    assert forall k :: 0 <= k < |rs| ==> rs[k] in rs;
  }

  /** The list without its first range that starts at `lo`. */
  function Dropped(rs: seq<Range>, lo: int): seq<Range> {
    if rs == [] then [] else if rs[0].lo == lo then rs[1..] else [rs[0]] + Dropped(rs[1..], lo)
  }

  lemma {:induction false} DroppedAt(rs: seq<Range>, lo: int, k: int)
    requires 0 <= k <= |rs| && forall j :: 0 <= j < k ==> rs[j].lo != lo
    requires k < |rs| ==> rs[k].lo == lo
    ensures Dropped(rs, lo) == if k < |rs| then rs[..k] + rs[k + 1..] else rs
  {
    if k > 0 {
      DroppedAt(rs[1..], lo, k - 1);
      if k < |rs| {
        assert rs[1..][..k - 1] == rs[1..k];
        assert rs[1..][k..] == rs[k + 1..];
      }
    }
  }

  class RangeNode {
    var lo: int
    var hi: int
    var next: RangeNode?

    constructor (lo: int, hi: int, next: RangeNode?)
      ensures this.lo == lo && this.hi == hi && this.next == next
    {
      this.lo, this.hi, this.next := lo, hi, next;
    }
  }

  class RangeList {
    var head: RangeNode?
    ghost var nodes: seq<RangeNode>

    ghost predicate LinkOk(k: int)
      requires 0 <= k < |nodes|
      reads this, nodes
    {
      nodes[k].next == if k + 1 < |nodes| then nodes[k + 1] else null
    }

    ghost predicate Valid()
      reads this, nodes
    {
      && head == (if nodes == [] then null else nodes[0])
      && (forall k {:trigger LinkOk(k)} :: 0 <= k < |nodes| ==> LinkOk(k))
      && (forall j, k :: 0 <= j < k < |nodes| ==> nodes[j] != nodes[k])
    }

    ghost function Ranges(): (rs: seq<Range>)
      reads this, nodes
      ensures |rs| == |nodes|
      ensures forall k :: 0 <= k < |rs| ==> rs[k] == Range(nodes[k].lo, nodes[k].hi)
    {
      seq(|nodes|, k requires 0 <= k < |nodes| reads this, nodes => Range(nodes[k].lo, nodes[k].hi))
    }

    constructor ()
      ensures Valid() && nodes == [] && Ranges() == []
    {
      head := null;
      nodes := [];
    }

    /** The loop of add_range over the listed ranges. */
    method FindOverlap(lo: int, hi: int) returns (found: bool)
      requires Valid()
      ensures found <==> exists k :: 0 <= k < |Ranges()| && Touches(lo, hi, Ranges()[k])
    {
      var p := head;
      ghost var i := 0;
      while p != null
        invariant 0 <= i <= |nodes| && p == (if i < |nodes| then nodes[i] else null)
        invariant forall k :: 0 <= k < i ==> !Touches(lo, hi, Ranges()[k])
        decreases |nodes| - i
      {
        assert LinkOk(i);
        if (p.lo <= lo && lo <= p.hi) || (p.lo <= hi && hi <= p.hi) {
          assert Touches(lo, hi, Ranges()[i]);
          return true;
        }
        p := p.next;
        i := i + 1;
      }
      return false;
    }

    /** add_range: check the payload and, when it passes, put it at the front of the list.  The bounds
        are mem_heap_lo() and mem_heap_hi(). */
    method AddRange(lo: int, size: int, heapLo: int, heapHi: int) returns (c: RangeCheck)
      requires Valid() && size > 0
      modifies this
      ensures Valid() && c == Check(old(Ranges()), lo, size, heapLo, heapHi)
      ensures c == Ok <==>
        && lo % 8 == 0 && heapLo <= lo && lo + size - 1 <= heapHi
        && forall r :: r in old(Ranges()) && SharesByte(lo, lo + size - 1, r) ==> Encloses(lo, lo + size - 1, r)
      ensures c == Ok ==> Ranges() == [Range(lo, lo + size - 1)] + old(Ranges())
      ensures c == Ok ==> nodes != [] && fresh(nodes[0]) && nodes[1..] == old(nodes)
      ensures c != Ok ==> Ranges() == old(Ranges()) && nodes == old(nodes)
    {
      hide Touches, SharesByte, Encloses, Check;
      var hi := lo + size - 1;
      CheckOkIff(Ranges(), lo, size, heapLo, heapHi);
      CheckCases(Ranges(), lo, size, heapLo, heapHi);
      if lo % 8 != 0 {
        return Misaligned;
      }
      if lo < heapLo || lo > heapHi || hi < heapLo || hi > heapHi {
        return Outside;
      }
      var found := FindOverlap(lo, hi);
      if found {
        return Overlaps;
      }
      Push(lo, hi);
      return Ok;
    }

    method Push(lo: int, hi: int)
      requires Valid()
      modifies this
      ensures Valid() && Ranges() == [Range(lo, hi)] + old(Ranges())
      ensures nodes != [] && fresh(nodes[0]) && nodes[1..] == old(nodes)
    {
      var p := new RangeNode(lo, hi, head);
      head := p;
      nodes := [p] + nodes;
      forall k | 0 <= k < |nodes|
        ensures LinkOk(k)
      {
        if k > 0 {
          assert old(LinkOk(k - 1)) && nodes[k] == old(nodes)[k - 1];
        }
      }
      assert forall k :: 0 < k < |nodes| ==> nodes[k] != p;
    }

    /** remove_range: unlink the first range that starts at `lo`, if there is one. */
    method RemoveRange(lo: int)
      requires Valid()
      modifies this, nodes
      ensures Valid() && Ranges() == Dropped(old(Ranges()), lo)
      ensures forall n :: n in nodes ==> n in old(nodes)
    {
      ghost var was := nodes;
      ghost var rs := Ranges();
      var p := head;
      var prev: RangeNode? := null;
      ghost var i := 0;
      while p != null && p.lo != lo
        invariant 0 <= i <= |nodes| && p == (if i < |nodes| then nodes[i] else null)
        invariant prev == (if i > 0 then nodes[i - 1] else null)
        invariant forall k :: 0 <= k < i ==> rs[k].lo != lo
        decreases |nodes| - i
      {
        assert LinkOk(i);
        prev := p;
        p := p.next;
        i := i + 1;
      }
      DroppedAt(rs, lo, i);
      if p != null {
        Unlink(prev, p, i);
      }
    }

    /** The link that leads to `p`, from the node before it or from the head, skips it. */
    method Unlink(prev: RangeNode?, p: RangeNode, ghost i: int)
      requires Valid() && 0 <= i < |nodes| && p == nodes[i] && prev == (if i > 0 then nodes[i - 1] else null)
      modifies this, nodes
      ensures Valid() && nodes == old(nodes)[..i] + old(nodes)[i + 1..]
      ensures Ranges() == old(Ranges())[..i] + old(Ranges())[i + 1..]
    {
      ghost var was := nodes;
      assert LinkOk(i);
      assert i > 0 ==> LinkOk(i - 1);
      if prev == null {
        head := p.next;
      } else {
        prev.next := p.next;
      }
      nodes := was[..i] + was[i + 1..];
      forall k | 0 <= k < |nodes|
        ensures LinkOk(k)
      {
        var k0 := if k < i then k else k + 1;
        assert nodes[k] == was[k0] && old(LinkOk(k0));
      }
    }

    /** clear_ranges: the records are given back to the system, which the model does not show. */
    method ClearRanges()
      requires Valid()
      modifies this
      ensures Valid() && nodes == [] && Ranges() == []
    {
      head := null;
      nodes := [];
    }
  }
}
