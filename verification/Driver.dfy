/** mdriver.c: the interpreter that runs a trace against the allocator, checks every payload it gets
    and measures how much of the heap the requests use. */
module Driver {
  import opened Words
  import opened SizeClass
  import opened HeapSpec
  import opened HeapOps
  import opened Layout
  import opened Steps
  import opened Runs
  import opened Usage
  import opened Trace
  import opened Ranges
  import opened Memlib
  import opened Mm

  // ---- the range list against the live requests --------------------------------------------------

  function RangeOf(req: map<int, int>, p: int): Range
    requires p in req
  {
    Range(p, p + req[p] - 1)
  }

  ghost predicate DistinctStarts(rs: seq<Range>) {
    forall j, k :: 0 <= j < k < |rs| ==> rs[j].lo != rs[k].lo
  }

  /** The list holds exactly one range for every live pointer. */
  ghost predicate Matches(rs: seq<Range>, req: map<int, int>) {
    && (forall r :: r in rs ==> r.lo in req && r == RangeOf(req, r.lo))
    && (forall p :: p in req ==> RangeOf(req, p) in rs)
    && DistinctStarts(rs)
  }

  lemma MatchesAdd(rs: seq<Range>, req: map<int, int>, p: int, size: int)
    requires Matches(rs, req) && p !in req
    ensures Matches([Range(p, p + size - 1)] + rs, req[p := size])
  {
  }

  lemma {:induction false} DroppedMembers(rs: seq<Range>, lo: int)
    requires DistinctStarts(rs)
    ensures DistinctStarts(Dropped(rs, lo))
    ensures forall r :: r in Dropped(rs, lo) <==> r in rs && r.lo != lo
  {
    if rs != [] {
      var t := rs[1..];
      assert DistinctStarts(t) && rs == [rs[0]] + t;
      DroppedMembers(t, lo);
      forall r | r in t
        ensures r.lo != rs[0].lo
      {
        var k :| 0 <= k < |t| && t[k] == r;
        assert t[k] == rs[k + 1];
      }
      hide Dropped;
      DroppedFirst(rs, lo);
      if rs[0].lo != lo {
        StartsCons(rs[0], Dropped(t, lo));
      }
    }
  }

  lemma DroppedFirst(rs: seq<Range>, lo: int)
    requires rs != []
    ensures Dropped(rs, lo) == if rs[0].lo == lo then rs[1..] else [rs[0]] + Dropped(rs[1..], lo)
  {
  }

  lemma StartsCons(r: Range, d: seq<Range>)
    requires DistinctStarts(d) && forall q :: q in d ==> q.lo != r.lo
    ensures DistinctStarts([r] + d)
  {
    var s := [r] + d;
    forall j, k | 0 <= j < k < |s|
      ensures s[j].lo != s[k].lo
    {
      assert s[k] == d[k - 1] && d[k - 1] in d;
      if j > 0 {
        assert s[j] == d[j - 1];
      }
    }
  }

  /** remove_range deletes exactly the range of the pointer that is given up. */
  lemma MatchesDrop(rs: seq<Range>, req: map<int, int>, p: int)
    requires Matches(rs, req) && p in req
    ensures Matches(Dropped(rs, p), req - {p})
  {
    DroppedMembers(rs, p);
    var req' := req - {p};
    forall q | q in req'
      ensures RangeOf(req', q) in Dropped(rs, p)
    {
      assert RangeOf(req, q) in rs;
    }
  }

  /** add_range accepts the payload of a live pointer that is not yet on the list. */
  lemma CheckPasses(rs: seq<Range>, h: Heap, p: int)
    requires Quiescent(h) && p in h.req && Matches(rs, h.req - {p})
    ensures Check(rs, p, h.req[p], h.lo - 16, h.hi - 1) == Ok
  {
    hide Sound, AllBitsSet, Live;
    LiveApart(h, p, p);
    PositiveRequest(h, p);
    forall k | 0 <= k < |rs|
      ensures !Touches(p, p + h.req[p] - 1, rs[k])
    {
      assert rs[k] in rs;
      LiveApart(h, p, rs[k].lo);
    }
  }

  lemma PositiveRequest(h: Heap, p: int)
    requires Quiescent(h) && p in h.req
    ensures h.req[p] >= 1
  {
  }

  lemma QuiescentBounds(h: Heap)
    requires Quiescent(h)
    ensures h.lo < h.hi <= h.limit
  {
  }

  // ---- stamped payloads --------------------------------------------------------------------------

  ghost predicate AllBytes(s: seq<int>, b: int) {
    forall k :: 0 <= k < |s| ==> s[k] == b
  }

  ghost predicate StampedAt(c: map<int, seq<int>>, ids: map<int, int>, id: int)
    requires id in ids
  {
    ids[id] in c && AllBytes(c[ids[id]], id % 256)
  }

  /** The payload of every id in use holds the low byte of the id throughout. */
  ghost predicate Stamped(c: map<int, seq<int>>, ids: map<int, int>) {
    forall id :: id in ids ==> StampedAt(c, ids, id)
  }

  lemma StampGone(c: map<int, seq<int>>, ids: map<int, int>, h: Heap, id: int)
    requires Stamped(c, ids) && Tracked(h, ids) && id in ids
    ensures Stamped(c - {ids[id]}, ids - {id})
  {
  }

  lemma CheckFresh(rs: seq<Range>, req: map<int, int>, h: Heap, p: int, size: int)
    requires Quiescent(h) && h.req == req[p := size] && p !in req && Matches(rs, req)
    ensures Check(rs, p, size, h.lo - 16, h.hi - 1) == Ok
  {
    assert h.req - {p} == req;
    CheckPasses(rs, h, p);
  }

  datatype Outcome = Go | NoMemory | RangeError | Lost

  class Driver {
    const mm: Allocator
    const ranges: RangeList
    const blocks: array<int>
    const blockSizes: array<int>
    ghost var ids: map<int, int>

    constructor (numIds: nat)
      ensures Laid() && ranges.Valid() && blocks.Length == numIds
      ensures fresh(mm) && fresh(mm.mem) && fresh(mm.mem.words) && fresh(mm.freeLists)
      ensures fresh(ranges) && ranges.nodes == [] && fresh(blocks) && fresh(blockSizes)
    {
      mm := new Allocator();
      ranges := new RangeList();
      blocks := new int[numIds];
      blockSizes := new int[numIds];
      ids := map[];
    }

    /** The arrays are as long as they must be, and different from each other. */
    predicate Laid() {
      && blocks != blockSizes && blocks.Length == blockSizes.Length
      && mm.mem.words as object != blocks && mm.mem.words as object != blockSizes
      && mm.freeLists as object != blocks && mm.freeLists as object != blockSizes
      && mm.freeLists.Length == FREELIST_COUNT && mm.mem.words.Length == MAX_HEAP / 4 && mm.mem.words != mm.freeLists
    }

    ghost predicate Recorded(id: int)
      requires id in ids
      reads this, mm, blocks, blockSizes
    {
      && 0 <= id < blocks.Length && id < blockSizes.Length && blocks[id] == ids[id]
      && ids[id] in mm.h.req && blockSizes[id] == mm.h.req[ids[id]]
    }

    /** The trace arrays hold pointer and size of every id in use. */
    ghost predicate Tracking()
      reads this, mm, mm.mem, mm.mem.words, mm.freeLists, blocks, blockSizes
    {
      Laid() && mm.Valid() && Tracked(mm.h, ids) && forall id :: id in ids ==> Recorded(id)
    }

    /** What eval_mm_valid keeps from one operation to the next. */
    ghost predicate Checking()
      reads this, mm, mm.mem, mm.mem.words, mm.freeLists, blocks, blockSizes, ranges, ranges.nodes
    {
      && Tracking() && ranges.Valid()
      && Matches(ranges.Ranges(), mm.h.req) && Stamped(mm.Contents(), ids)
    }

    lemma HeapBounds()
      requires mm.Valid()
      ensures mm.mem.MemHeapLo() == mm.h.lo - 16 && mm.mem.MemHeapHi() == mm.h.hi - 1
    {
    }

    // ---- eval_mm_valid -----------------------------------------------------------------------

    /** The entries of the other ids are in order. */
    ghost predicate OthersInOrder(id: int, p: int)
      requires Laid() && mm.Valid()
      reads this, mm, mm.mem, mm.mem.words, mm.freeLists, blocks, blockSizes
    {
      forall j :: j in ids && j != id ==> Recorded(j) && ids[j] != p && StampedAt(mm.Contents(), ids, j)
    }

    /** memset with the low byte of the id, and the new entry in the trace arrays. */
    method StampAndRecord(id: int, p: int, size: int)
      requires Laid() && mm.Valid() && 0 <= id < blocks.Length && p in mm.h.req && size == mm.h.req[p]
      requires OthersInOrder(id, p)
      modifies mm.mem`view, mm.mem.words, blocks, blockSizes, this`ids
      ensures Laid() && mm.Valid() && mm.h == old(mm.h) && ids == old(ids)[id := p] && blocks[id] == p
      ensures Stamped(mm.Contents(), ids) && forall j :: j in ids ==> Recorded(j)
    {
      hide Quiescent, Rep;
      ghost var c := mm.Contents();
      mm.Fill(p, id % 256, size);
      ghost var c' := mm.Contents();
      Record(id, p, size);
      forall j | j in ids
        ensures StampedAt(c', ids, j)
      {
        if j != id {
          assert StampedAt(c, old(ids), j);
        }
      }
    }

    /** Pointer and size go into the entry of the id in the two trace arrays. */
    method Record(id: int, p: int, size: int)
      requires Laid() && 0 <= id < blocks.Length && p in mm.h.req && size == mm.h.req[p]
      requires forall j :: j in ids && j != id ==> Recorded(j)
      modifies blocks, blockSizes, this`ids
      ensures ids == old(ids)[id := p] && blocks[id] == p
      ensures forall j :: j in ids ==> Recorded(j)
    {
      blocks[id] := p;
      blockSizes[id] := size;
      ids := ids[id := p];
      forall j | j in ids
        ensures Recorded(j)
      {
        if j != id {
          assert old(Recorded(j));
        }
      }
    }

    /** add_range for a new payload, which passes all its checks. */
    method EnterRange(p: int, size: int, ghost req: map<int, int>) returns (ok: bool)
      requires mm.Valid() && ranges.Valid() && Matches(ranges.Ranges(), req)
      requires p !in req && mm.h.req == req[p := size] && 1 <= size
      modifies ranges
      ensures ok && ranges.Valid() && Matches(ranges.Ranges(), mm.h.req)
      ensures forall n :: n in ranges.nodes ==> n in old(ranges.nodes) || fresh(n)
    {
      hide Quiescent, Rep, Matches;
      MatchesAdd(ranges.Ranges(), req, p, size);
      CheckFresh(ranges.Ranges(), req, mm.h, p, size);
      HeapBounds();
      var check := ranges.AddRange(p, size, mm.mem.MemHeapLo(), mm.mem.MemHeapHi());
      ok := check == Ok;
    }

    /** The ALLOC case. */
    method DoAlloc(id: int, size: int) returns (r: Outcome)
      requires Checking() && 0 <= id < blocks.Length && 0 <= size <= INT_MAX
      modifies this`ids, mm`h, mm`heapEnd, mm.mem`view, mm.mem`brk, mm.mem.words, mm.freeLists
      modifies ranges, blocks, blockSizes
      ensures Performs(old(mm.h), old(ids), Alloc(id, size), mm.h, ids, if r == Go then blocks[id] else 0)
      ensures r == Go || r == NoMemory
      ensures r == Go ==> Checking() && blocks[id] != 0
      ensures forall n :: n in ranges.nodes ==> n in old(ranges.nodes) || fresh(n)
    {
      hide Quiescent, Rep, Kept, Malloc, Matches, Tracked, RangeList.Valid, LiveContents, OthersInOrder, Laid;
      ContentsKeys();
      ghost var g, c := mm.h, mm.Contents();
      PerformKeeps(g, ids, Alloc(id, size));
      MallocKeeps(g, size);
      var p := mm.MmMalloc(size);
      if p == 0 {
        return NoMemory;
      }
      OthersAfterMalloc(c, g, id, p);
      var ok := EnterRange(p, size, g.req);
      if !ok {
        return RangeError;
      }
      StampAndRecord(id, p, size);
      return Go;
    }

    lemma ContentsKeys()
      requires mm.Valid()
      ensures Quiescent(mm.h) && mm.Contents().Keys == mm.h.req.Keys
    {
    }

    /** A new allocation leaves the entries of all ids in order. */
    lemma OthersAfterMalloc(c: map<int, seq<int>>, g: Heap, id: int, p: int)
      requires Laid() && mm.Valid() && Tracked(g, ids) && p !in g.req && p in mm.h.req && c.Keys == g.req.Keys
      requires mm.h.req == g.req[p := mm.h.req[p]] && mm.Contents() == c[p := mm.Contents()[p]] && Stamped(c, ids)
      requires forall j :: j in ids ==>
        0 <= j < blocks.Length && j < blockSizes.Length && blocks[j] == ids[j] && blockSizes[j] == g.req[ids[j]]
      ensures OthersInOrder(id, p)
    {
      hide Quiescent, Rep;
      forall j | j in ids && j != id
        ensures Recorded(j) && ids[j] != p && StampedAt(mm.Contents(), ids, j)
      {
        assert StampedAt(c, ids, j);
      }
    }

    /** The loop that compares the copied bytes with the low byte of the id, as plain chars. */
    method SameData(newp: int, id: int, n: int, signed: bool) returns (same: bool)
      requires mm.Mapped() && 0 <= n && 0 <= id && mm.mem.startBrk <= newp && newp + n <= mm.mem.brk
      ensures same <==> forall k :: 0 <= k < n ==> CharValue(signed, Bytes(mm.mem.view, newp, n)[k]) == id % 256
    {
      hide RdByte;
      for j := 0 to n
        invariant forall k :: 0 <= k < j ==> CharValue(signed, Bytes(mm.mem.view, newp, n)[k]) == id % 256
      {
        assert Bytes(mm.mem.view, newp, n)[j] == RdByte(mm.mem.view, newp + j);
        if CharValue(signed, mm.mem.GetB(newp + j)) != id % 256 {
          return false;
        }
      }
      return true;
    }

    /** Preserved bytes compare equal exactly when the id byte does not clash. */
    static lemma SameDataIff(s: seq<int>, id: int, signed: bool)
      requires |s| >= 1 && 0 <= id && AllBytes(s, id % 256)
      ensures (forall k :: 0 <= k < |s| ==> 0 <= s[k] < 256 && CharValue(signed, s[k]) == id % 256) <==>
              !Clash(signed, id)
    {
      assert s[0] == id % 256;
    }

    /** The entries of the other ids after mm_realloc. */
    lemma OthersAfterRealloc(c: map<int, seq<int>>, g: Heap, id: int, p: int)
      requires Laid() && mm.Valid() && Tracked(g, ids) && id in ids && p !in g.req && p in mm.h.req
      requires mm.h.req == g.req[p := mm.h.req[p]] - {ids[id]} && c.Keys == g.req.Keys
      requires mm.Contents() - {p} == c - {ids[id]} && Stamped(c, ids)
      requires forall j :: j in ids ==>
        0 <= j < blocks.Length && j < blockSizes.Length && blocks[j] == ids[j] && blockSizes[j] == g.req[ids[j]]
      ensures OthersInOrder(id, p)
    {
      hide Quiescent, Rep;
      var c' := mm.Contents();
      forall j | j in ids && j != id
        ensures Recorded(j) && ids[j] != p && StampedAt(c', ids, j)
      {
        assert StampedAt(c, ids, j);
        assert ids[j] in c - {ids[id]} && (c - {ids[id]})[ids[j]] == c[ids[j]];
        assert (c' - {p})[ids[j]] == c'[ids[j]];
      }
    }

    /** remove_range for the old payload and add_range for the new one. */
    method ExchangeRange(oldp: int, p: int, size: int, ghost req: map<int, int>) returns (ok: bool)
      requires mm.Valid() && ranges.Valid() && Matches(ranges.Ranges(), req)
      requires oldp in req && p !in req && mm.h.req == req[p := size] - {oldp} && 1 <= size
      modifies ranges, ranges.nodes
      ensures ok && ranges.Valid() && Matches(ranges.Ranges(), mm.h.req)
      ensures forall n :: n in ranges.nodes ==> n in old(ranges.nodes) || fresh(n)
    {
      hide Quiescent, Rep, Matches;
      DropRange(oldp, req);
      assert req[p := size] - {oldp} == (req - {oldp})[p := size];
      ok := EnterRange(p, size, req - {oldp});
    }

    /** The REALLOC case. */
    method DoRealloc(id: int, size: int, signed: bool) returns (r: Outcome)
      requires Checking() && id in ids && 0 <= size <= INT_MAX
      modifies this`ids, mm`h, mm`heapEnd, mm.mem`view, mm.mem`brk, mm.mem.words, mm.freeLists
      modifies ranges, ranges.nodes, blocks, blockSizes
      ensures r != RangeError && 0 <= id < blocks.Length
      ensures r == NoMemory <==> Fails(old(mm.h), old(ids), Realloc(id, size))
      ensures r == Lost ==> Clash(signed, id)
      ensures r == Go ==> !Clash(signed, id) && Checking()
      ensures r == Go ==> Performs(old(mm.h), old(ids), Realloc(id, size), mm.h, ids, blocks[id]) && blocks[id] != 0
      ensures forall n :: n in ranges.nodes ==> n in old(ranges.nodes) || fresh(n)
    {
      hide Quiescent, Rep, Matches, Tracked, Perform, Stamped, LiveContents, RangeList.Valid, OthersInOrder, Laid;
      ghost var g, c, m := mm.h, mm.Contents(), mm.mem.view;
      assert Recorded(id);
      PerformKeeps(g, ids, Realloc(id, size));
      PointerOf(g, ids, id);
      StampOf(c, ids, id);
      var oldp := blocks[id];
      var newp := ReallocPayload(id, oldp, size);
      if newp == 0 {
        return NoMemory;
      }
      var ok := ExchangeRange(oldp, newp, size, g.req);
      if !ok {
        return RangeError;
      }
      var same := CheckCopy(id, newp, size, signed, c, g, m);
      if !same {
        return Lost;
      }
      StampAndRecord(id, newp, size);
      return Go;
    }

    /** mm_realloc of the pointer that an id holds; the entry of the id is then out of date. */
    method ReallocPayload(id: int, oldp: int, size: int) returns (newp: int)
      requires Tracking() && id in ids && oldp == ids[id] && 0 <= size <= INT_MAX && Stamped(mm.Contents(), ids)
      modifies mm`h, mm`heapEnd, mm.mem`view, mm.mem`brk, mm.mem.words, mm.freeLists
      ensures oldp in old(mm.h).req && (newp == 0 <==> Fails(old(mm.h), ids, Realloc(id, size)))
      ensures newp != 0 ==>
        && mm.Valid() && Performs(old(mm.h), ids, Realloc(id, size), mm.h, ids[id := newp], newp)
        && newp !in old(mm.h).req && newp in mm.h.req
        && mm.h.req == old(mm.h).req[newp := size] - {oldp} && 1 <= size == mm.h.req[newp]
        && OthersInOrder(id, newp)
      ensures newp != 0 ==> var k := Min(old(mm.h).req[oldp], size);
        k >= 0 && Bytes(mm.mem.view, newp, k) == Bytes(old(mm.mem.view), oldp, k)
    {
      hide Quiescent, Rep, Kept, HeapOps.Realloc, Tracked;
      ghost var g, c := mm.h, mm.Contents();
      PointerOf(g, ids, id);
      PositiveRequest(g, oldp);
      ReallocKeeps(g, oldp, size);
      var overrun;
      newp, overrun := mm.MmRealloc(oldp, size);
      if newp != 0 {
        OthersAfterRealloc(c, g, id, newp);
      }
    }

    static lemma StampOf(c: map<int, seq<int>>, ids: map<int, int>, id: int)
      requires Stamped(c, ids) && id in ids
      ensures StampedAt(c, ids, id)
    {
    }

    /** The check that mm_realloc has preserved the data. */
    method CheckCopy(
      id: int, newp: int, size: int, signed: bool, ghost c: map<int, seq<int>>, ghost g: Heap, ghost m: Mem)
      returns (same: bool)
      requires Laid() && mm.Valid() && 0 <= id < blocks.Length && newp in mm.h.req && mm.h.req[newp] == size
      requires Quiescent(g) && c == LiveContents(m, g) && id in ids && ids[id] in g.req && StampedAt(c, ids, id)
      requires blockSizes[id] == g.req[ids[id]]
      requires var k := Min(g.req[ids[id]], size);
        k >= 0 && Bytes(mm.mem.view, newp, k) == Bytes(m, ids[id], k)
      ensures same <==> !Clash(signed, id)
    {
      hide Sound, AllBitsSet, Rep, RdByte, Bytes;
      var oldsize := blockSizes[id];
      if size < oldsize {
        oldsize := size;
      }
      ghost var p := ids[id];
      PositiveRequest(g, p);
      PositiveRequest(mm.h, newp);
      RequestFits(mm.h, newp);
      QuiescentBounds(mm.h);
      ghost var s := Bytes(mm.mem.view, newp, oldsize);
      PrefixStamp(m, p, g.req[p], oldsize, id % 256);
      ByteRange(mm.mem.view, newp, oldsize);
      SameDataIff(s, id, signed);
      same := SameData(newp, id, oldsize, signed);
    }

    static lemma ByteRange(m: Mem, p: int, n: nat)
      ensures |Bytes(m, p, n)| == n && forall k :: 0 <= k < n ==> 0 <= Bytes(m, p, n)[k] < 256
    {
    }

    static lemma PrefixStamp(m: Mem, p: int, n: nat, k: nat, b: int)
      requires k <= n && AllBytes(Bytes(m, p, n), b)
      ensures AllBytes(Bytes(m, p, k), b)
    {
      hide RdByte;
      BytesPrefix(m, p, n, k);
      assert forall j :: 0 <= j < k ==> Bytes(m, p, n)[..k][j] == Bytes(m, p, n)[j];
    }

    /** The FREE case. */
    method DoFree(id: int)
      requires Checking() && id in ids
      modifies this`ids, mm`h, mm.mem`view, mm.mem.words, mm.freeLists, ranges, ranges.nodes
      ensures Checking()
      ensures Performs(old(mm.h), old(ids), Free(id), mm.h, ids, old(ids[id]))
      ensures forall n :: n in ranges.nodes ==> n in old(ranges.nodes)
    {
      hide Quiescent, Rep, Matches, Stamped, Tracked, Performs, Tracking, Laid, RangeList.Valid, LiveContents;
      EntryOf(id);
      ghost var g, c, was := mm.h, mm.Contents(), ids;
      var p := blocks[id];
      PointerOf(g, was, id);
      StampGone(c, was, g, id);
      DropRange(p, g.req);
      ghost var rs := ranges.Ranges();
      FreeTracked(id, p);
      OpenTracking();
      assert ranges.Valid() && ranges.Ranges() == rs;
    }

    /** remove_range for a payload that is given up. */
    method DropRange(p: int, ghost req: map<int, int>)
      requires ranges.Valid() && p in req && Matches(ranges.Ranges(), req)
      modifies ranges, ranges.nodes
      ensures ranges.Valid() && Matches(ranges.Ranges(), req - {p})
      ensures forall n :: n in ranges.nodes ==> n in old(ranges.nodes)
    {
      hide Matches;
      MatchesDrop(ranges.Ranges(), req, p);
      ranges.RemoveRange(p);
    }

    lemma EntryOf(id: int)
      requires Tracking() && id in ids
      ensures Quiescent(mm.h) && Tracked(mm.h, ids) && Recorded(id)
    {
    }

    /** mm_free of the pointer that an id holds. */
    method FreeTracked(id: int, p: int)
      requires Tracking() && id in ids && p == ids[id]
      modifies this`ids, mm`h, mm.mem`view, mm.mem.words, mm.freeLists
      ensures Tracking() && Performs(old(mm.h), old(ids), Free(id), mm.h, ids, p)
      ensures ids == old(ids) - {id} && mm.h.req == old(mm.h).req - {p} && mm.Contents() == old(mm.Contents()) - {p}
    {
      hide Quiescent, Rep, Kept, Freed, Tracked;
      ghost var g, was := mm.h, ids;
      PerformKeeps(g, was, Free(id));
      PointerOf(g, was, id);
      FreedKeeps(g, p);
      ids := ids - {id};
      mm.MmFree(p);
      RecordedAfterFree(g, was, id);
    }

    lemma RecordedAfterFree(g: Heap, was: map<int, int>, id: int)
      requires Laid() && Tracked(g, was) && id in was && mm.h.req == g.req - {was[id]} && ids == was - {id}
      requires forall j :: j in was ==>
        0 <= j < blocks.Length && j < blockSizes.Length && blocks[j] == was[j] && blockSizes[j] == g.req[was[j]]
      ensures forall j :: j in ids ==> Recorded(j)
    {
    }

    /** One round of the switch in eval_mm_valid. */
    method DoOp(op: TraceOp, signed: bool) returns (r: Outcome)
      requires Checking() && Playable(op, ids) && (op.Alloc? ==> 0 <= op.index < blocks.Length)
      modifies this`ids, mm`h, mm`heapEnd, mm.mem`view, mm.mem`brk, mm.mem.words, mm.freeLists
      modifies ranges, ranges.nodes, blocks, blockSizes
      ensures r != RangeError && (r == NoMemory <==> Fails(old(mm.h), old(ids), op))
      ensures r == Lost ==> op.Realloc? && Clash(signed, op.index)
      ensures r == Go ==> Checking() && !(op.Realloc? && Clash(signed, op.index))
      ensures r == Go ==> exists p :: Performs(old(mm.h), old(ids), op, mm.h, ids, p)
      ensures forall n :: n in ranges.nodes ==> n in old(ranges.nodes) || fresh(n)
    {
      hide Quiescent, Rep, Matches, Tracked, Perform, Stamped;
      PerformKeeps(mm.h, ids, op);
      match op
      case Alloc(id, size) =>
        r := DoAlloc(id, size);
      case Realloc(id, size) =>
        r := DoRealloc(id, size, signed);
      case Free(id) =>
        DoFree(id);
        r := Go;
    }

    /** The heap that mm_init leaves. */
    static function Start(region: int, pageSize: int): Heap
      requires 1 <= pageSize && 2 * pageSize <= MAX_REQUEST
    {
      InitHeap(region + 16, region + MAX_HEAP, AdjustByteSize(2 * pageSize))
    }

    static predicate CanStart(region: int, pageSize: int) {
      8 <= region && region % 8 == 0 && region + MAX_HEAP < WORD_SPAN && Allocator.InitFits(pageSize)
    }

    static lemma StartQuiescent(region: int, pageSize: int)
      requires CanStart(region, pageSize)
      ensures Quiescent(Start(region, pageSize)) && Tracked(Start(region, pageSize), NO_IDS)
    {
      AdjustIsLeast(2 * pageSize);
      Allocator.InitRoom(region, AdjustByteSize(2 * pageSize));
      InitQuiescent(region + 16, region + MAX_HEAP, AdjustByteSize(2 * pageSize));
    }

    /** mem_reset_brk, clear_ranges and mm_init at the start of a run. */
    method StartValid(region: int, pageSize: int)
      requires Laid() && ranges.Valid() && CanStart(region, pageSize)
      modifies this`ids, mm, mm.mem, mm.mem.words, mm.freeLists, ranges
      ensures Checking() && mm.h == Start(region, pageSize) && ids == NO_IDS && ranges.nodes == []
    {
      hide Rep, Quiescent, AdjustByteSize, InitHeap;
      StartFields(region, pageSize);
      mm.mem.MemResetBrk();
      ranges.ClearRanges();
      var r := mm.MmInit(region, pageSize);
      ids := NO_IDS;
    }

    static lemma StartFields(region: int, pageSize: int)
      requires CanStart(region, pageSize)
      ensures Start(region, pageSize).req == map[] && Tracked(Start(region, pageSize), NO_IDS)
    {
    }

    /** eval_mm_valid: for every well-formed trace the verdict is the expected one.  In particular no
        payload is ever misaligned, outside the heap or overlapping another, and the only data it can
        report lost is that of a resize whose id byte a signed char cannot match.  A trace is accepted
        exactly when there is no such resize and no request fails; with room for every request, exactly
        when there is no such resize. */
    method EvalMmValid(ops: seq<TraceOp>, signed: bool, region: int, pageSize: int) returns (v: Verdict)
      requires Laid() && ranges.Valid() && CanStart(region, pageSize) && WellFormed(ops, 0, blocks.Length, NO_IDS.Keys)
      modifies this`ids, mm, mm.mem, mm.mem.words, mm.freeLists, ranges, ranges.nodes, blocks, blockSizes
      ensures var h0 := Start(region, pageSize);
        && Quiescent(h0) && Tracked(h0, NO_IDS)
        && v == Expected(h0, NO_IDS, ops, 0, blocks.Length, signed)
      ensures exists hs, maps :: Judged(Start(region, pageSize), NO_IDS, ops, 0, signed, v, hs, maps)
      ensures !v.BadRange?
      ensures NoClash(ops, 0, signed) ==> v.Accepted? || v.MallocFailed? || v.ReallocFailed?
      ensures v.Accepted? <==>
        NoClash(ops, 0, signed) && Peak(Start(region, pageSize), NO_IDS, ops, 0, blocks.Length, 0).0
      ensures var h0 := Start(region, pageSize);
        RoomFor(ops, 0, h0.hi, h0.limit, h0.page) ==>
          v == ClashVerdict(ops, 0, signed) && (v.Accepted? <==> NoClash(ops, 0, signed))
      ensures v.Accepted? ==> Checking()
    {
      hide Quiescent, Rep, Matches, Tracked, Perform, Stamped, Start, Checking;
      hide NoClash, Peak, RoomFor, ClashVerdict, Expected, WellFormed, Judged;
      StartQuiescent(region, pageSize);
      ghost var h0 := Start(region, pageSize);
      ghost var n := blocks.Length;
      ghost var e := Expected(h0, NO_IDS, ops, 0, n, signed);
      NeverBad(h0, NO_IDS, ops, 0, n, signed);
      ghost var hs, maps := ExpectedJudged(h0, NO_IDS, ops, 0, n, signed);
      AcceptedIff(h0, NO_IDS, ops, 0, n, signed, 0);
      if RoomFor(ops, 0, h0.hi, h0.limit, h0.page) {
        VerdictInRoom(h0, NO_IDS, ops, 0, n, signed);
      }
      StartValid(region, pageSize);
      v := PlayTrace(ops, signed);
    }

    /** The loop of eval_mm_valid, from a fresh heap and an empty range list. */
    method PlayTrace(ops: seq<TraceOp>, signed: bool) returns (v: Verdict)
      requires Checking() && Quiescent(mm.h) && Tracked(mm.h, ids) && ranges.nodes == []
      requires WellFormed(ops, 0, blocks.Length, ids.Keys)
      modifies this`ids, mm`h, mm`heapEnd, mm.mem`view, mm.mem`brk, mm.mem.words, mm.freeLists
      modifies ranges, ranges.nodes, blocks, blockSizes
      ensures v == Expected(old(mm.h), old(ids), ops, 0, blocks.Length, signed)
      ensures v.Accepted? ==> Checking()
    {
      hide Quiescent, Rep, Matches, Tracked, Perform, Stamped, Checking, Expected, WellFormed;
      ghost var n := blocks.Length;
      ghost var e := Expected(mm.h, ids, ops, 0, n, signed);
      var i := 0;
      while i < |ops|
        invariant 0 <= i <= |ops| && Checking() && Quiescent(mm.h) && Tracked(mm.h, ids)
        invariant forall k :: k in ranges.nodes ==> fresh(k)
        invariant WellFormed(ops, i, n, ids.Keys) && Expected(mm.h, ids, ops, i, n, signed) == e
      {
        ExpectedStep(mm.h, ids, ops, i, n, signed);
        forall k | 0 <= k < |ranges.nodes|
          ensures fresh(ranges.nodes[k])
        {
          assert ranges.nodes[k] in ranges.nodes;
        }
        var r := DoOp(ops[i], signed);
        if r == NoMemory {
          return if ops[i].Alloc? then MallocFailed(i) else ReallocFailed(i);
        }
        if r == RangeError {
          return BadRange(i);
        }
        if r == Lost {
          return LostData(i);
        }
        OpenChecking();
        i := i + 1;
      }
      ExpectedDone(mm.h, ids, ops, n, signed);
      return Accepted;
    }

    lemma OpenChecking()
      requires Checking()
      ensures Quiescent(mm.h) && Tracked(mm.h, ids)
    {
    }

    // ---- eval_mm_util ------------------------------------------------------------------------

    /** The ALLOC case of eval_mm_util. */
    method AllocTracked(id: int, size: int) returns (p: int)
      requires Tracking() && 0 <= id < blocks.Length && 0 <= size <= INT_MAX
      modifies this`ids, mm`h, mm`heapEnd, mm.mem`view, mm.mem`brk, mm.mem.words, mm.freeLists, blocks, blockSizes
      ensures Tracking() && Performs(old(mm.h), old(ids), Alloc(id, size), mm.h, ids, p)
    {
      hide Quiescent, Rep, Kept, Malloc, Tracked;
      ghost var g := mm.h;
      PerformKeeps(g, ids, Alloc(id, size));
      MallocKeeps(g, size);
      p := mm.MmMalloc(size);
      if p != 0 {
        StillThere(g, mm.h, ids, p, size);
        Record(id, p, size);
      }
    }

    static lemma StillThere(g: Heap, g': Heap, ids: map<int, int>, p: int, size: int)
      requires Tracked(g, ids) && g'.req == g.req[p := size] && p !in g.req
      ensures forall j :: j in ids ==> ids[j] in g'.req && g'.req[ids[j]] == g.req[ids[j]]
    {
    }

    /** The REALLOC case of eval_mm_util; also the old size, which the code reads from the trace. */
    method ReallocTracked(id: int, size: int) returns (p: int, oldsize: int)
      requires Tracking() && id in ids && 0 <= size <= INT_MAX
      modifies this`ids, mm`h, mm`heapEnd, mm.mem`view, mm.mem`brk, mm.mem.words, mm.freeLists, blocks, blockSizes
      ensures Tracking() && Performs(old(mm.h), old(ids), Realloc(id, size), mm.h, ids, p)
      ensures old(ids[id]) in old(mm.h.req) && oldsize == old(mm.h.req[ids[id]])
    {
      hide Quiescent, Rep, Kept, HeapOps.Realloc, Tracked;
      ghost var g := mm.h;
      PerformKeeps(g, ids, Realloc(id, size));
      assert Recorded(id);
      oldsize := blockSizes[id];
      var oldp := blocks[id];
      ReallocKeeps(g, oldp, size);
      var overrun;
      p, overrun := mm.MmRealloc(oldp, size);
      if p != 0 {
        OthersStillThere(g, mm.h, ids, id, p, size);
        Record(id, p, size);
      }
    }

    static lemma OthersStillThere(g: Heap, g': Heap, ids: map<int, int>, id: int, p: int, size: int)
      requires Tracked(g, ids) && id in ids && g'.req == g.req[p := size] - {ids[id]} && p !in g.req
      ensures forall j :: j in ids && j != id ==> ids[j] in g'.req && g'.req[ids[j]] == g.req[ids[j]]
    {
    }

    /** One round of the switch in eval_mm_util: the total moves with the live requests. */
    method UseOp(op: TraceOp, total: int, peak: int) returns (ok: bool, total': int, peak': int)
      requires Tracking() && Playable(op, ids) && (op.Alloc? ==> 0 <= op.index < blocks.Length)
      requires total == Total(mm.h.req) && 0 <= total <= peak
      modifies this`ids, mm`h, mm`heapEnd, mm.mem`view, mm.mem`brk, mm.mem.words, mm.freeLists, blocks, blockSizes
      ensures Tracking()
      ensures ok <==> !Fails(old(mm.h), old(ids), op)
      ensures exists p :: Performs(old(mm.h), old(ids), op, mm.h, ids, p)
      ensures ok ==> total' == Total(mm.h.req) && peak' == Max(total', peak) && 0 <= total' <= peak'
      ensures !ok ==> peak' == peak && mm.h == old(mm.h)
    {
      hide Quiescent, Rep, Tracked, Perform, Total;
      ghost var g := mm.h;
      PerformKeeps(g, ids, op);
      PerformTotal(g, ids, op);
      PerformFails(g, ids, op);
      ok, total', peak' := true, total, peak;
      match op {
        case Alloc(id, size) =>
          var p := AllocTracked(id, size);
          if p == 0 {
            ok := false;
            return;
          }
          total' := total + size;
          peak' := Max(total', peak);
        case Realloc(id, size) =>
          var p, oldsize := ReallocTracked(id, size);
          if p == 0 {
            ok := false;
            return;
          }
          total' := total + (size - oldsize);
          peak' := Max(total', peak);
        case Free(id) =>
          assert Recorded(id);
          var size := blockSizes[id];
          PositiveRequest(g, ids[id]);
          FreeTracked(id, blocks[id]);
          total' := total - size;
      }
      TotalNotNegative(mm.h);
    }

    static lemma PerformFails(g: Heap, ids: map<int, int>, op: TraceOp)
      requires Quiescent(g) && Tracked(g, ids) && Playable(op, ids)
      ensures Perform(g, ids, op).2 == 0 ==> Perform(g, ids, op).0 == g && Perform(g, ids, op).1 == ids
    {
      hide Quiescent, Tracked;
      PerformKeeps(g, ids, op);
    }

    static lemma TotalNotNegative(g: Heap)
      requires Quiescent(g)
      ensures Total(g.req) >= 0
    {
      forall p | p in g.req
        ensures g.req[p] >= 0
      {
        PositiveRequest(g, p);
      }
      TotalAtLeastZero(g.req);
    }

    /** eval_mm_util: the peak of the live total over the run, and the heap size at its end.  The peak
        is strictly below the heap size, so the utilization is below one; `ok` is false when a request
        fails, where the program stops. */
    method EvalMmUtil(ops: seq<TraceOp>, region: int, pageSize: int)
      returns (ok: bool, maxTotal: int, heapSize: int, util: real)
      requires Laid() && CanStart(region, pageSize) && WellFormed(ops, 0, blocks.Length, NO_IDS.Keys)
      modifies this`ids, mm, mm.mem, mm.mem.words, mm.freeLists, blocks, blockSizes
      ensures var h0 := Start(region, pageSize);
        && Quiescent(h0) && Tracked(h0, NO_IDS)
        && (ok, maxTotal, mm.h) == Peak(h0, NO_IDS, ops, 0, blocks.Length, 0)
      ensures exists hs, maps :: Measured(Start(region, pageSize), NO_IDS, ops, 0, 0, ok, maxTotal, mm.h, hs, maps)
      ensures 0 <= maxTotal < heapSize <= MAX_HEAP && heapSize == mm.mem.MemHeapSize()
      ensures util == maxTotal as real / heapSize as real && 0.0 <= util < 1.0
    {
      hide Quiescent, Rep, Tracked, Perform, Start, Tracking, Total, Measured;
      StartQuiescent(region, pageSize);
      StartFields(region, pageSize);
      ghost var h0 := Start(region, pageSize);
      ghost var n := blocks.Length;
      ghost var e := Peak(h0, NO_IDS, ops, 0, n, 0);
      QuiescentBounds(h0);
      PeakBelowHeap(h0, NO_IDS, ops, 0, n, 0);
      ghost var hs, maps := PeakMeasured(h0, NO_IDS, ops, 0, n, 0);
      StartUtil(region, pageSize);
      maxTotal := 0;
      ok := true;
      var total := 0;
      var i := 0;
      while i < |ops| && ok
        invariant 0 <= i <= |ops| && Tracking() && Quiescent(mm.h) && Tracked(mm.h, ids)
        invariant ok ==> WellFormed(ops, i, n, ids.Keys) && Peak(mm.h, ids, ops, i, n, maxTotal) == e
        invariant ok ==> total == Total(mm.h.req) && 0 <= total <= maxTotal
        invariant !ok ==> e == (false, maxTotal, mm.h)
      {
        PeakStep(mm.h, ids, ops, i, n, maxTotal);
        assert ops[i].Alloc? ==> 0 <= ops[i].index < blocks.Length;
        ok, total, maxTotal := UseOp(ops[i], total, maxTotal);
        OpenTracking();
        i := i + 1;
      }
      heapSize := mm.mem.MemHeapSize();
      SizeInRegion();
      util := maxTotal as real / heapSize as real;
      Ratio(maxTotal, heapSize);
    }

    static lemma Ratio(a: int, b: int)
      requires 0 <= a < b
      ensures 0.0 <= a as real / b as real < 1.0
    {
    }

    lemma OpenTracking()
      requires Tracking()
      ensures Quiescent(mm.h) && Tracked(mm.h, ids)
    {
    }

    lemma SizeInRegion()
      requires Tracking()
      ensures mm.mem.MemHeapSize() == mm.h.hi - (mm.h.lo - 16) <= MAX_HEAP
    {
    }

    method StartUtil(region: int, pageSize: int)
      requires Laid() && CanStart(region, pageSize)
      modifies this`ids, mm, mm.mem, mm.mem.words, mm.freeLists
      ensures Tracking() && Quiescent(mm.h) && Tracked(mm.h, ids)
      ensures mm.h == Start(region, pageSize) && ids == NO_IDS && Total(mm.h.req) == 0
    {
      hide Rep, Quiescent, AdjustByteSize, InitHeap;
      StartFields(region, pageSize);
      mm.mem.MemResetBrk();
      var r := mm.MmInit(region, pageSize);
      ids := NO_IDS;
    }
  }
}
