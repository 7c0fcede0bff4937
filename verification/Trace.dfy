/** Traces of the driver, and what running one must do: which requests fail, which heap is left, and
    how large the live total gets. */
module Trace {
  import opened Words
  import opened HeapSpec
  import opened HeapOps
  import opened Runs
  import opened Usage

  datatype TraceOp = Alloc(index: int, size: int) | Realloc(index: int, size: int) | Free(index: int)

  /** What eval_mm_valid reports, with the number of the operation at which it stopped. */
  datatype Verdict = Accepted | MallocFailed(at: int) | ReallocFailed(at: int) | BadRange(at: int) | LostData(at: int)

  /** At the start of a trace no id is in use. */
  const NO_IDS: map<int, int> := map[]

  const INT_MAX: int := 0x7FFF_FFFF

  /** Ids are in range, sizes are those a C int can hold, and only ids that are in use are freed or
      resized.  An id may be allocated again, whether or not it is in use. */
  predicate WellFormed(ops: seq<TraceOp>, i: int, n: int, live: set<int>)
    requires 0 <= i <= |ops|
    decreases |ops| - i
  {
    i == |ops| ||
    match ops[i]
    case Alloc(id, size) => 0 <= id < n && 0 <= size <= INT_MAX && WellFormed(ops, i + 1, n, live + {id})
    case Realloc(id, size) => id in live && 0 <= size <= INT_MAX && WellFormed(ops, i + 1, n, live)
    case Free(id) => id in live && WellFormed(ops, i + 1, n, live - {id})
  }

  /** Id `id` is in use before operation `j`: it was allocated, and not freed since. */
  ghost predicate InUse(ops: seq<TraceOp>, j: int, id: int)
    requires 0 <= j <= |ops|
  {
    exists k :: AllocatedBy(ops, k, j, id)
  }

  ghost predicate AllocatedBy(ops: seq<TraceOp>, k: int, j: int, id: int)
    requires 0 <= j <= |ops|
  {
    0 <= k < j && ops[k].Alloc? && ops[k].index == id && forall m :: k < m < j ==> !(ops[m].Free? && ops[m].index == id)
  }

  /** What one operation may be: any size that is not negative, any id in range for a new block, and an id in
      use otherwise. */
  ghost predicate Allowed(ops: seq<TraceOp>, j: int, n: int)
    requires 0 <= j < |ops|
  {
    match ops[j]
    case Alloc(id, size) => 0 <= id < n && 0 <= size <= INT_MAX
    case Realloc(id, size) => InUse(ops, j, id) && 0 <= size <= INT_MAX
    case Free(id) => InUse(ops, j, id)
  }

  lemma InUseStep(ops: seq<TraceOp>, j: int, id: int)
    requires 0 <= j < |ops|
    ensures InUse(ops, j + 1, id) <==>
      match ops[j]
      case Alloc(a, _) => a == id || InUse(ops, j, id)
      case Realloc(_, _) => InUse(ops, j, id)
      case Free(a) => a != id && InUse(ops, j, id)
  {
    if InUse(ops, j + 1, id) {
      var k :| AllocatedBy(ops, k, j + 1, id);
      if k < j {
        assert AllocatedBy(ops, k, j, id);
      }
    }
    if ops[j].Alloc? && ops[j].index == id {
      assert AllocatedBy(ops, j, j + 1, id);
    } else if InUse(ops, j, id) && !(ops[j].Free? && ops[j].index == id) {
      var k :| AllocatedBy(ops, k, j, id);
      assert AllocatedBy(ops, k, j + 1, id);
    }
  }

  /** A trace is well formed exactly when each of its operations is allowed where it stands. */
  lemma {:induction false} WellFormedIff(ops: seq<TraceOp>, i: int, n: int, live: set<int>)
    requires 0 <= i <= |ops| && forall id :: id in live <==> InUse(ops, i, id)
    ensures WellFormed(ops, i, n, live) <==> forall j :: i <= j < |ops| ==> Allowed(ops, j, n)
    decreases |ops| - i
  {
    hide InUse;
    if i < |ops| {
      var live' := match ops[i]
                   case Alloc(id, _) => live + {id}
                   case Realloc(_, _) => live
                   case Free(id) => live - {id};
      forall id
        ensures id in live' <==> InUse(ops, i + 1, id)
      {
        InUseStep(ops, i, id);
      }
      WellFormedIff(ops, i + 1, n, live');
      assert WellFormed(ops, i, n, live) <==> Allowed(ops, i, n) && WellFormed(ops, i + 1, n, live');
      hide Allowed, WellFormed;
      assert (forall j :: i <= j < |ops| ==> Allowed(ops, j, n)) <==>
             Allowed(ops, i, n) && forall j :: i + 1 <= j < |ops| ==> Allowed(ops, j, n);
    }
  }

  lemma NoneInUse(ops: seq<TraceOp>)
    ensures forall id :: !InUse(ops, 0, id)
  {
  }

  /** The ids in use hold different live pointers. */
  ghost predicate Tracked(h: Heap, ids: map<int, int>) {
    && (forall id :: id in ids ==> ids[id] in h.req)
    && (forall a, b :: a in ids && b in ids && a != b ==> ids[a] != ids[b])
  }

  /** A plain char is compared with the low byte of the id; when char is signed, a low byte of 128 or
      more never compares equal. */
  predicate Clash(signed: bool, id: int) {
    signed && id % 256 >= 128
  }

  /** The value of a plain char that holds byte `b`. */
  function CharValue(signed: bool, b: Byte): int {
    if signed && b >= 128 then b - 256 else b
  }

  /** A char that is not signed holds the byte itself; a signed one holds the value from -128 to 127 that
      agrees with it modulo 256. */
  lemma CharRange(signed: bool, b: Byte)
    ensures if signed then -128 <= CharValue(signed, b) <= 127 else CharValue(signed, b) == b
    ensures (CharValue(signed, b) - b) % 256 == 0
  {
  }

  /** An id clashes exactly when a char that holds its low byte is not equal to it. */
  lemma ClashIff(signed: bool, id: int)
    ensures Clash(signed, id) <==> CharValue(signed, id % 256) != id % 256
  {
  }

  /** An operation that can be made when the ids of `ids` are in use. */
  predicate Playable(op: TraceOp, ids: map<int, int>) {
    match op
    case Alloc(_, size) => 0 <= size <= INT_MAX
    case Realloc(id, size) => id in ids && 0 <= size <= INT_MAX
    case Free(id) => id in ids
  }

  /** One operation on the heap value and the ids; the pointer is 0 when the request failed. */
  ghost function Perform(h: Heap, ids: map<int, int>, op: TraceOp): (Heap, map<int, int>, int)
    requires Quiescent(h) && Tracked(h, ids) && Playable(op, ids)
  {
    match op
    case Alloc(id, size) =>
      var (h', p) := Malloc(h, size);
      if p == 0 then (h, ids, 0) else (h', ids[id := p], p)
    case Realloc(id, size) =>
      var (h', p) := HeapOps.Realloc(h, ids[id], size);
      if p == 0 then (h, ids, 0) else (h', ids[id := p], p)
    case Free(id) =>
      assert IsAlloc(h, ids[id]);
      (Freed(h, ids[id]), ids - {id}, ids[id])
  }

  /** Operation `op` leads from `h` and `ids` to `h'` and `ids'` with result `p`. */
  ghost predicate Performs(h: Heap, ids: map<int, int>, op: TraceOp, h': Heap, ids': map<int, int>, p: int) {
    Quiescent(h) && Tracked(h, ids) && Playable(op, ids) && (h', ids', p) == Perform(h, ids, op)
  }

  /** Operation `op` gets a NULL pointer. */
  ghost predicate Fails(h: Heap, ids: map<int, int>, op: TraceOp) {
    Quiescent(h) && Tracked(h, ids) && Playable(op, ids) && Perform(h, ids, op).2 == 0
  }

  lemma PerformKeeps(h: Heap, ids: map<int, int>, op: TraceOp)
    requires Quiescent(h) && Tracked(h, ids) && Playable(op, ids)
    ensures var (h', ids', p) := Perform(h, ids, op);
      && Quiescent(h') && Tracked(h', ids')
      && h'.lo == h.lo && h'.limit == h.limit && h'.page == h.page
      && (op.Free? ==> p != 0 && p == ids[op.index] && ids'.Keys == ids.Keys - {op.index} && h'.req == h.req - {p})
      && (p != 0 && op.Alloc? ==> ids'.Keys == ids.Keys + {op.index} && h'.req == h.req[p := op.size] && p !in h.req)
      && (p != 0 && op.Realloc? ==>
            ids'.Keys == ids.Keys && h'.req == h.req[p := op.size] - {ids[op.index]} && p !in h.req)
  {
    hide Sound, AllBitsSet, Live, Malloc, HeapOps.Realloc, Freed;
    match op
    case Alloc(id, size) =>
      MallocKeeps(h, size);
    case Realloc(id, size) =>
      ReallocKeeps(h, ids[id], size);
    case Free(id) =>
      LiveIsAlloc(h, ids[id]);
      FreedKeeps(h, ids[id]);
      FreedPositive(h, ids[id]);
  }

  lemma LiveIsAlloc(h: Heap, p: int)
    requires Live(h) && p in h.req
    ensures IsAlloc(h, p)
  {
  }

  lemma FreedPositive(h: Heap, p: int)
    requires Quiescent(h) && p in h.req
    ensures p != 0
  {
  }

  /** The verdict that a correct allocator must get for the operations from `i` on: the first failing
      request, or the first comparison that a signed char must fail, and otherwise acceptance. */
  ghost function Expected(h: Heap, ids: map<int, int>, ops: seq<TraceOp>, i: int, n: int, signed: bool): Verdict
    requires Quiescent(h) && Tracked(h, ids) && 0 <= i <= |ops| && WellFormed(ops, i, n, ids.Keys)
    decreases |ops| - i
  {
    if i == |ops| then Accepted
    else
      PerformKeeps(h, ids, ops[i]);
      var (h', ids', p) := Perform(h, ids, ops[i]);
      if p == 0 then (if ops[i].Alloc? then MallocFailed(i) else ReallocFailed(i))
      else if ops[i].Realloc? && Clash(signed, ops[i].index) then LostData(i)
      else Expected(h', ids', ops, i + 1, n, signed)
  }

  /** One step of the expectation. */
  lemma ExpectedStep(h: Heap, ids: map<int, int>, ops: seq<TraceOp>, i: int, n: int, signed: bool)
    requires Quiescent(h) && Tracked(h, ids) && 0 <= i < |ops| && WellFormed(ops, i, n, ids.Keys)
    ensures Playable(ops[i], ids) && (ops[i].Alloc? ==> 0 <= ops[i].index < n)
    ensures var (h', ids', p) := Perform(h, ids, ops[i]); var e := Expected(h, ids, ops, i, n, signed);
      if p == 0 then e == (if ops[i].Alloc? then MallocFailed(i) else ReallocFailed(i))
      else if ops[i].Realloc? && Clash(signed, ops[i].index) then e == LostData(i)
      else Quiescent(h') && Tracked(h', ids') && WellFormed(ops, i + 1, n, ids'.Keys)
           && e == Expected(h', ids', ops, i + 1, n, signed)
  {
    hide Quiescent, Tracked, Perform;
    PerformKeeps(h, ids, ops[i]);
  }

  lemma ExpectedDone(h: Heap, ids: map<int, int>, ops: seq<TraceOp>, n: int, signed: bool)
    requires Quiescent(h) && Tracked(h, ids) && WellFormed(ops, |ops|, n, ids.Keys)
    ensures Expected(h, ids, ops, |ops|, n, signed) == Accepted
  {
  }

  lemma PeakStep(h: Heap, ids: map<int, int>, ops: seq<TraceOp>, i: int, n: int, peak: int)
    requires Quiescent(h) && Tracked(h, ids) && 0 <= i < |ops| && WellFormed(ops, i, n, ids.Keys)
    ensures Playable(ops[i], ids)
    ensures var (h', ids', p) := Perform(h, ids, ops[i]);
      if p == 0 then Peak(h, ids, ops, i, n, peak) == (false, peak, h)
      else Quiescent(h') && Tracked(h', ids') && WellFormed(ops, i + 1, n, ids'.Keys)
           && Peak(h, ids, ops, i, n, peak) == Peak(h', ids', ops, i + 1, n, Max(Total(h'.req), peak))
  {
    hide Quiescent, Tracked, Perform;
    PerformKeeps(h, ids, ops[i]);
  }

  /** No resize from `i` on is of an id whose byte a plain char cannot match. */
  ghost predicate NoClash(ops: seq<TraceOp>, i: int, signed: bool)
    requires 0 <= i <= |ops|
  {
    forall j :: i <= j < |ops| && ops[j].Realloc? ==> !Clash(signed, ops[j].index)
  }

  /** No misaligned, outside or overlapping payload is ever reported, and lost data only for a
      resize whose id byte a signed char cannot match: with unsigned chars, or with all such bytes below
      128, a trace is accepted unless memory runs out. */
  lemma {:induction false} NeverBad(h: Heap, ids: map<int, int>, ops: seq<TraceOp>, i: int, n: int, signed: bool)
    requires Quiescent(h) && Tracked(h, ids) && 0 <= i <= |ops| && WellFormed(ops, i, n, ids.Keys)
    ensures var v := Expected(h, ids, ops, i, n, signed);
      && !v.BadRange?
      && (v.LostData? ==> i <= v.at < |ops| && ops[v.at].Realloc? && Clash(signed, ops[v.at].index))
      && (NoClash(ops, i, signed) ==> v.Accepted? || v.MallocFailed? || v.ReallocFailed?)
    decreases |ops| - i
  {
    hide Quiescent, Tracked, Perform;
    if i < |ops| {
      PerformKeeps(h, ids, ops[i]);
      var (h', ids', p) := Perform(h, ids, ops[i]);
      if p != 0 && !(ops[i].Realloc? && Clash(signed, ops[i].index)) {
        NeverBad(h', ids', ops, i + 1, n, signed);
      }
    }
  }

  /** The most that the operations from `i` on can make the heap grow. */
  ghost function Demand(ops: seq<TraceOp>, i: int, page: int): int
    requires 0 <= i <= |ops|
    decreases |ops| - i
  {
    if i == |ops| then 0
    else
      (match ops[i]
       case Free(_) => 0
       case _ => if 1 <= ops[i].size <= INT_MAX then Max(AdjustByteSize(ops[i].size), page) else 0)
      + Demand(ops, i + 1, page)
  }

  /** No request is for zero bytes, and the region has room for a page or a block per request above the
      break `hi`. */
  ghost predicate RoomFor(ops: seq<TraceOp>, i: int, hi: int, limit: int, page: int)
    requires 0 <= i <= |ops|
  {
    && (forall j :: i <= j < |ops| && !ops[j].Free? ==> ops[j].size >= 1)
    && page >= 0 && hi + Demand(ops, i, page) <= limit
  }

  lemma {:induction false} DemandPositive(ops: seq<TraceOp>, i: int, page: int)
    requires 0 <= i <= |ops| && page >= 0
    ensures Demand(ops, i, page) >= 0
    decreases |ops| - i
  {
    if i < |ops| {
      DemandPositive(ops, i + 1, page);
    }
  }

  lemma PerformGrowth(h: Heap, ids: map<int, int>, op: TraceOp)
    requires Quiescent(h) && Tracked(h, ids) && Playable(op, ids) && (op.Free? || op.size >= 1)
    ensures op.Free? ==> Perform(h, ids, op).0.hi == h.hi
    ensures !op.Free? ==> Perform(h, ids, op).0.hi <= h.hi + Max(AdjustByteSize(op.size), h.page)
    ensures !op.Free? && h.hi + Max(AdjustByteSize(op.size), h.page) <= h.limit ==> Perform(h, ids, op).2 != 0
  {
    hide Sound, AllBitsSet, Live, Malloc, Freed, AdjustByteSize;
    match op
    case Alloc(id, size) =>
      MallocGrowth(h, size);
      MallocNullIff(h, size);
    case Realloc(id, size) =>
      MallocKeeps(h, size);
      MallocGrowth(h, size);
      MallocNullIff(h, size);
      var (h', p) := Malloc(h, size);
      if p != 0 {
        FreedKeeps(h', ids[id]);
      }
    case Free(id) =>
      LiveIsAlloc(h, ids[id]);
      FreedKeeps(h, ids[id]);
  }

  /** The verdict that the ids alone decide: data lost at the first resize whose id byte clashes. */
  function ClashVerdict(ops: seq<TraceOp>, i: int, signed: bool): (v: Verdict)
    requires 0 <= i <= |ops|
    ensures v.Accepted? <==> NoClash(ops, i, signed)
    decreases |ops| - i
  {
    if i == |ops| then Accepted
    else if ops[i].Realloc? && Clash(signed, ops[i].index) then LostData(i)
    else ClashVerdict(ops, i + 1, signed)
  }

  /** In a region with room for a page or a block per request, a trace of positive sizes gets the verdict
      that its ids decide, whatever the heap looks like. */
  lemma {:induction false} VerdictInRoom(h: Heap, ids: map<int, int>, ops: seq<TraceOp>, i: int, n: int, signed: bool)
    requires Quiescent(h) && Tracked(h, ids) && 0 <= i <= |ops| && WellFormed(ops, i, n, ids.Keys)
    requires RoomFor(ops, i, h.hi, h.limit, h.page)
    ensures Expected(h, ids, ops, i, n, signed) == ClashVerdict(ops, i, signed)
    decreases |ops| - i
  {
    hide Quiescent, Tracked, Perform, AdjustByteSize;
    if i < |ops| {
      PerformKeeps(h, ids, ops[i]);
      PerformGrowth(h, ids, ops[i]);
      DemandPositive(ops, i + 1, h.page);
      var (h', ids', p) := Perform(h, ids, ops[i]);
      VerdictInRoom(h', ids', ops, i + 1, n, signed);
    }
  }

  /** Acceptance of every well-formed trace fails for signed chars: a block with id 128, resized once, is
      reported lost although its bytes were kept.  With unsigned chars the same trace is accepted. */
  lemma SignedCharLosesData(h: Heap, signed: bool)
    requires Quiescent(h) && h.hi + 2 * Max(16, h.page) <= h.limit
    ensures var ops := [Alloc(128, 12), Realloc(128, 12)];
      && Tracked(h, NO_IDS) && WellFormed(ops, 0, 129, NO_IDS.Keys)
      && Expected(h, NO_IDS, ops, 0, 129, signed) == (if signed then LostData(1) else Accepted)
  {
    hide Quiescent, Expected;
    var ops := [Alloc(128, 12), Realloc(128, 12)];
    assert WellFormed(ops, 2, 129, {128});
    assert WellFormed(ops, 1, 129, {128});
    assert NO_IDS.Keys + {128} == {128};
    assert AdjustByteSize(12) == 16;
    hide AdjustByteSize;
    PagePositive(h);
    assert Demand(ops, 2, h.page) == 0;
    assert Demand(ops, 1, h.page) == Max(16, h.page);
    assert Demand(ops, 0, h.page) == 2 * Max(16, h.page);
    VerdictInRoom(h, NO_IDS, ops, 0, 129, signed);
    assert ClashVerdict(ops, 2, signed) == Accepted;
  }

  lemma PagePositive(h: Heap)
    requires Quiescent(h)
    ensures h.page >= 16
  {
  }

  // ---- utilization -----------------------------------------------------------------------------

  /** The largest live total met after the operations from `i` on, starting from `peak`, and the heap
      that is left; `ok` is false when a request fails. */
  ghost function Peak(h: Heap, ids: map<int, int>, ops: seq<TraceOp>, i: int, n: int, peak: int): (bool, int, Heap)
    requires Quiescent(h) && Tracked(h, ids) && 0 <= i <= |ops| && WellFormed(ops, i, n, ids.Keys)
    decreases |ops| - i
  {
    if i == |ops| then (true, peak, h)
    else
      PerformKeeps(h, ids, ops[i]);
      var (h', ids', p) := Perform(h, ids, ops[i]);
      if p == 0 then (false, peak, h)
      else Peak(h', ids', ops, i + 1, n, Max(Total(h'.req), peak))
  }

  lemma NoClashStep(ops: seq<TraceOp>, i: int, signed: bool)
    requires 0 <= i <= |ops|
    ensures NoClash(ops, i, signed) <==>
      i == |ops| || (!(ops[i].Realloc? && Clash(signed, ops[i].index)) && NoClash(ops, i + 1, signed))
  {
  }

  /** A trace is accepted exactly when no id byte clashes and no request fails. */
  lemma {:induction false} AcceptedIff(
    h: Heap, ids: map<int, int>, ops: seq<TraceOp>, i: int, n: int, signed: bool, peak: int)
    requires Quiescent(h) && Tracked(h, ids) && 0 <= i <= |ops| && WellFormed(ops, i, n, ids.Keys)
    ensures Expected(h, ids, ops, i, n, signed) == Accepted <==>
            NoClash(ops, i, signed) && Peak(h, ids, ops, i, n, peak).0
    decreases |ops| - i
  {
    hide Quiescent, Tracked, Perform, Total, NoClash, WellFormed;
    NoClashStep(ops, i, signed);
    if i < |ops| {
      ExpectedStep(h, ids, ops, i, n, signed);
      PeakStep(h, ids, ops, i, n, peak);
      var (h', ids', p) := Perform(h, ids, ops[i]);
      if p != 0 && !(ops[i].Realloc? && Clash(signed, ops[i].index)) {
        AcceptedIff(h', ids', ops, i + 1, n, signed, Max(Total(h'.req), peak));
      }
    }
  }

  lemma PointerOf(h: Heap, ids: map<int, int>, id: int)
    requires Tracked(h, ids) && id in ids
    ensures ids[id] in h.req
  {
  }

  lemma PerformTotal(h: Heap, ids: map<int, int>, op: TraceOp)
    requires Quiescent(h) && Tracked(h, ids) && Playable(op, ids)
    ensures var (h', ids', p) := Perform(h, ids, op);
      p != 0 ==>
        Total(h'.req) == match op
                         case Alloc(_, size) => Total(h.req) + size
                         case Realloc(id, size) => Total(h.req) + size - h.req[ids[id]]
                         case Free(id) => Total(h.req) - h.req[ids[id]]
  {
    hide Quiescent, Tracked, Perform, Total;
    PerformKeeps(h, ids, op);
    var (h', ids', p) := Perform(h, ids, op);
    if !op.Alloc? {
      PointerOf(h, ids, op.index);
    }
    if p != 0 {
      match op
      case Alloc(_, size) =>
        TotalAdd(h.req, p, size);
      case Realloc(id, size) =>
        TotalAdd(h.req, p, size);
        TotalRemove(h.req[p := size], ids[id]);
      case Free(id) =>
        TotalRemove(h.req, ids[id]);
    }
  }

  lemma PerformHi(h: Heap, ids: map<int, int>, op: TraceOp)
    requires Quiescent(h) && Tracked(h, ids) && Playable(op, ids)
    ensures h.hi <= Perform(h, ids, op).0.hi
  {
    hide Sound, AllBitsSet, Live, Malloc, Freed, AdjustByteSize;
    match op
    case Alloc(id, size) =>
      MallocGrowth(h, size);
    case Realloc(id, size) =>
      MallocKeeps(h, size);
      MallocGrowth(h, size);
      var (h', p) := Malloc(h, size);
      if p != 0 {
        FreedKeeps(h', ids[id]);
      }
    case Free(id) =>
      LiveIsAlloc(h, ids[id]);
      FreedKeeps(h, ids[id]);
  }

  /** The peak of the live total is strictly below the final size of the heap: utilization is below
      one. */
  lemma {:induction false} PeakBelowHeap(h: Heap, ids: map<int, int>, ops: seq<TraceOp>, i: int, n: int, peak: int)
    requires Quiescent(h) && Tracked(h, ids) && 0 <= i <= |ops| && WellFormed(ops, i, n, ids.Keys)
    requires peak < h.hi - (h.lo - 16)
    ensures var (ok, top, h') := Peak(h, ids, ops, i, n, peak);
      peak <= top < h'.hi - (h'.lo - 16) && h'.lo == h.lo
    decreases |ops| - i
  {
    hide Quiescent, Tracked, Perform;
    if i < |ops| {
      PerformKeeps(h, ids, ops[i]);
      PerformHi(h, ids, ops[i]);
      var (h', ids', p) := Perform(h, ids, ops[i]);
      if p != 0 {
        LiveBelowHeap(h');
        PeakBelowHeap(h', ids', ops, i + 1, n, Max(Total(h'.req), peak));
      }
    }
  }

  // ---- runs of a trace, from single operations ----------------------------------------------------

  /** The operation gets its pointer, or frees it, and leads to the next state. */
  ghost predicate Plays(h: Heap, ids: map<int, int>, op: TraceOp, h': Heap, ids': map<int, int>) {
    exists p :: p != 0 && Performs(h, ids, op, h', ids', p)
  }

  /** The states met from operation `i` on, one operation after the other. */
  ghost predicate Played(ops: seq<TraceOp>, i: int, hs: seq<Heap>, maps: seq<map<int, int>>) {
    && 0 <= i && 1 <= |hs| == |maps| && i + |hs| <= |ops| + 1
    && forall j :: 0 <= j < |hs| - 1 ==> Plays(hs[j], maps[j], ops[i + j], hs[j + 1], maps[j + 1])
  }

  lemma PlayedCons(h: Heap, ids: map<int, int>, ops: seq<TraceOp>, i: int, hs: seq<Heap>, maps: seq<map<int, int>>)
    requires Played(ops, i + 1, hs, maps) && 0 <= i < |ops| && Plays(h, ids, ops[i], hs[0], maps[0])
    ensures Played(ops, i, [h] + hs, [ids] + maps)
  {
    hide Plays;
    var hs', maps' := [h] + hs, [ids] + maps;
    forall j | 0 <= j < |hs'| - 1
      ensures Plays(hs'[j], maps'[j], ops[i + j], hs'[j + 1], maps'[j + 1])
    {
      if j > 0 {
        assert Plays(hs[j - 1], maps[j - 1], ops[i + 1 + (j - 1)], hs[j], maps[j]);
      }
    }
  }

  /** `top` is the largest of `peak` and the live totals after the operations. */
  ghost predicate IsPeak(top: int, peak: int, hs: seq<Heap>) {
    && peak <= top && (forall j :: 1 <= j < |hs| ==> Total(hs[j].req) <= top)
    && (top == peak || exists j :: 1 <= j < |hs| && Total(hs[j].req) == top)
  }

  lemma IsPeakCons(top: int, peak: int, h: Heap, hs: seq<Heap>)
    requires hs != [] && IsPeak(top, Max(Total(hs[0].req), peak), hs)
    ensures IsPeak(top, peak, [h] + hs)
  {
    hide Total;
    var hs' := [h] + hs;
    forall j | 1 <= j < |hs'|
      ensures Total(hs'[j].req) <= top
    {
      assert hs'[j] == hs[j - 1];
    }
    if top != peak {
      if j :| 1 <= j < |hs| && Total(hs[j].req) == top {
        assert hs'[j + 1] == hs[j];
      } else {
        assert hs'[1] == hs[0];
      }
    }
  }

  /** The run that the measurement follows: all operations, or up to the first that fails.  The reported peak
      is the largest live total after any of them. */
  ghost predicate Measured(h: Heap, ids: map<int, int>, ops: seq<TraceOp>, i: int, peak: int, ok: bool, top: int,
                           h': Heap, hs: seq<Heap>, maps: seq<map<int, int>>)
  {
    && Played(ops, i, hs, maps) && hs[0] == h && maps[0] == ids && hs[|hs| - 1] == h'
    && (ok <==> i + |hs| - 1 == |ops|)
    && (!ok ==> Fails(h', maps[|hs| - 1], ops[i + |hs| - 1]))
    && IsPeak(top, peak, hs)
  }

  lemma {:induction false} PeakMeasured(h: Heap, ids: map<int, int>, ops: seq<TraceOp>, i: int, n: int, peak: int)
    returns (hs: seq<Heap>, maps: seq<map<int, int>>)
    requires Quiescent(h) && Tracked(h, ids) && 0 <= i <= |ops| && WellFormed(ops, i, n, ids.Keys)
    ensures var (ok, top, h') := Peak(h, ids, ops, i, n, peak); Measured(h, ids, ops, i, peak, ok, top, h', hs, maps)
    decreases |ops| - i
  {
    hide Quiescent, Tracked, Perform, Total, WellFormed;
    hs, maps := [h], [ids];
    if i < |ops| {
      PeakStep(h, ids, ops, i, n, peak);
      var (h', ids', p) := Perform(h, ids, ops[i]);
      if p != 0 {
        assert Performs(h, ids, ops[i], h', ids', p);
        hs, maps := PeakMeasured(h', ids', ops, i + 1, n, Max(Total(h'.req), peak));
        PlayedCons(h, ids, ops, i, hs, maps);
        IsPeakCons(Peak(h, ids, ops, i, n, peak).1, peak, h, hs);
        hs, maps := [h] + hs, [ids] + maps;
      }
    }
  }

  /** The run that a verdict follows: no operation of it failed or clashed, and the verdict names what the
      next one does, or accepts when there is none. */
  ghost predicate Judged(h: Heap, ids: map<int, int>, ops: seq<TraceOp>, i: int, signed: bool, v: Verdict,
                         hs: seq<Heap>, maps: seq<map<int, int>>)
  {
    && Played(ops, i, hs, maps) && hs[0] == h && maps[0] == ids
    && (forall j :: i <= j < i + |hs| - 1 && ops[j].Realloc? ==> !Clash(signed, ops[j].index))
    && var k := i + |hs| - 1;
       match v
       case Accepted => k == |ops|
       case MallocFailed(at) => at == k < |ops| && ops[k].Alloc? && Fails(hs[|hs| - 1], maps[|hs| - 1], ops[k])
       case ReallocFailed(at) => at == k < |ops| && ops[k].Realloc? && Fails(hs[|hs| - 1], maps[|hs| - 1], ops[k])
       case LostData(at) =>
         && at == k < |ops| && ops[k].Realloc? && Clash(signed, ops[k].index)
         && !Fails(hs[|hs| - 1], maps[|hs| - 1], ops[k])
       case BadRange(_) => false
  }

  lemma {:induction false} ExpectedJudged(h: Heap, ids: map<int, int>, ops: seq<TraceOp>, i: int, n: int, signed: bool)
    returns (hs: seq<Heap>, maps: seq<map<int, int>>)
    requires Quiescent(h) && Tracked(h, ids) && 0 <= i <= |ops| && WellFormed(ops, i, n, ids.Keys)
    ensures Judged(h, ids, ops, i, signed, Expected(h, ids, ops, i, n, signed), hs, maps)
    decreases |ops| - i
  {
    hide Quiescent, Tracked, Perform, WellFormed;
    hs, maps := [h], [ids];
    if i < |ops| {
      ExpectedStep(h, ids, ops, i, n, signed);
      FreeNeverFails(h, ids, ops[i]);
      var (h', ids', p) := Perform(h, ids, ops[i]);
      if p != 0 && !(ops[i].Realloc? && Clash(signed, ops[i].index)) {
        assert Performs(h, ids, ops[i], h', ids', p);
        hs, maps := ExpectedJudged(h', ids', ops, i + 1, n, signed);
        PlayedCons(h, ids, ops, i, hs, maps);
        hs, maps := [h] + hs, [ids] + maps;
      }
    }
  }

  lemma FreeNeverFails(h: Heap, ids: map<int, int>, op: TraceOp)
    requires Quiescent(h) && Tracked(h, ids) && Playable(op, ids)
    ensures op.Free? ==> Perform(h, ids, op).2 != 0
  {
    hide Quiescent, Tracked, Perform;
    PerformKeeps(h, ids, op);
  }

  /** One operation is one call of the allocator, and the id then holds its result. */
  lemma PerformCalls(h: Heap, ids: map<int, int>, op: TraceOp)
    requires Quiescent(h) && Tracked(h, ids) && Playable(op, ids)
    ensures var (h', ids', p) := Perform(h, ids, op);
      match op
      case Alloc(id, size) => p == Malloc(h, size).1 && (p != 0 ==> h' == Malloc(h, size).0 && ids' == ids[id := p])
      case Realloc(id, size) =>
        && ids[id] in h.req && p == HeapOps.Realloc(h, ids[id], size).1
        && (p != 0 ==> h' == HeapOps.Realloc(h, ids[id], size).0 && ids' == ids[id := p])
      case Free(id) => IsAlloc(h, ids[id]) && p == ids[id] && h' == Freed(h, p) && ids' == ids - {id}
  {
    hide Sound, AllBitsSet, Malloc, HeapOps.Realloc, Freed;
    if op.Free? {
      assert IsAlloc(h, ids[op.index]);
    }
  }
}
