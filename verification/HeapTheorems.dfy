/** What the allocator promises over every run of calls. */
module HeapTheorems {
  import opened Spans
  import opened HeapModel

  // ---- canonical form ----

  /** The free list is a function of the live blocks: it is their maximal gaps in address order. */
  lemma FreeListDetermined(g: Heap, h: Heap)
    requires WellFormed(g) && WellFormed(h)
    requires g.lo == h.lo && g.hi == h.hi && g.live == h.live
    ensures g.free == h.free && g.left == h.left
  {
    forall x: int
      ensures Covered(g.free, x) <==> Covered(h.free, x)
    {
      if x < g.lo || g.hi <= x {
        assert !Covered(g.free, x) && !Covered(h.free, x);
      }
    }
    Canonical(g.free, h.free);
  }

  /** A gap between live blocks that cannot be extended either way. */
  ghost predicate MaximalGap(h: Heap, s: nat, e: nat) {
    && h.lo <= s < e <= h.hi
    && (forall x | s <= x < e :: !InUse(h.live, x))
    && (s == h.lo || InUse(h.live, s - 1))
    && (e == h.hi || InUse(h.live, e))
  }

  lemma EdgesUncovered(f: seq<Span>, i: nat)
    requires Separated(f) && i < |f|
    ensures !Covered(f, f[i].addr - 1) && !Covered(f, f[i].End())
  {
    forall j | 0 <= j < |f|
      ensures !f[j].Has(f[i].addr - 1) && !f[j].Has(f[i].End())
    {
    }
  }

  lemma FreeBlocksAreGaps(h: Heap, i: nat)
    requires WellFormed(h) && i < |h.free|
    ensures MaximalGap(h, h.free[i].addr, h.free[i].End())
  {
    var b := h.free[i];
    assert BlockOk(h.lo, h.hi, b);
    EdgesUncovered(h.free, i);
    forall x: int | b.addr <= x < b.End()
      ensures !InUse(h.live, x)
    {
      assert b.Has(x);
    }
  }

  lemma GapsAreFreeBlocks(h: Heap, s: nat, e: nat)
    requires WellFormed(h) && MaximalGap(h, s, e)
    ensures Span(s, e - s) in h.free
  {
    assert Covered(h.free, s);
    var i :| 0 <= i < |h.free| && h.free[i].Has(s);
    var b := h.free[i];
    EdgesUncovered(h.free, i);
    assert BlockOk(h.lo, h.hi, b);
    assert b.addr < s ==> b.Has(s - 1);
    assert b.addr < s ==> Covered(h.free, s - 1);
    assert e < b.End() ==> b.Has(e);
    assert e < b.End() ==> Covered(h.free, e);
    assert b.End() < e ==> InUse(h.live, b.End());
    assert b == Span(s, e - s);
  }

  /** The free blocks are exactly the maximal gaps between the live blocks. */
  lemma FreeListIsGaps(h: Heap, s: nat, e: nat)
    requires WellFormed(h) && s <= e
    ensures Span(s, e - s) in h.free <==> MaximalGap(h, s, e)
  {
    if Span(s, e - s) in h.free {
      var i :| 0 <= i < |h.free| && h.free[i] == Span(s, e - s);
      FreeBlocksAreGaps(h, i);
    }
    if MaximalGap(h, s, e) {
      GapsAreFreeBlocks(h, s, e);
    }
  }

  lemma {:induction false} RunKeepsRange(h: Heap, ops: seq<Op>)
    ensures Run(h, ops).lo == h.lo && Run(h, ops).hi == h.hi
    decreases |ops|
  {
    if ops != [] {
      RunKeepsRange(Step(h, ops[0]), ops[1..]);
    }
  }

  /** However differently two runs went, the same live blocks mean the same free list. */
  lemma RunsAgree(h: Heap, s: seq<Op>, t: seq<Op>)
    requires WellFormed(h) && Run(h, s).live == Run(h, t).live
    ensures Run(h, s).free == Run(h, t).free && Run(h, s).left == Run(h, t).left
  {
    RunKeeps(h, s);
    RunKeeps(h, t);
    RunKeepsRange(h, s);
    RunKeepsRange(h, t);
    FreeListDetermined(Run(h, s), Run(h, t));
  }

  /** Two heaps that differ at most in their free lists and byte counts. */
  ghost predicate SameLive(g: Heap, h: Heap) {
    g.lo == h.lo && g.hi == h.hi && g.live == h.live && g.low == h.low
  }

  lemma SameHeap(g: Heap, h: Heap)
    requires WellFormed(g) && WellFormed(h)
    requires SameLive(g, h)
    ensures g == h
  {
    FreeListDetermined(g, h);
  }

  lemma ReleaseTwiceKeeps(h: Heap, p: nat, q: nat)
    requires WellFormed(h)
    ensures WellFormed(Release(Release(h, p), q))
  {
    ReleaseKeeps(h, p);
    ReleaseKeeps(Release(h, p), q);
  }

  lemma ReleaseLive(h: Heap, p: nat)
    ensures SameLive(Release(h, p), h.(live := h.live - {p - HEADER}))
  {
  }

  lemma ReleaseTwiceLive(h: Heap, p: nat, q: nat)
    ensures SameLive(Release(Release(h, p), q), Release(Release(h, q), p))
  {
    var s, t := Release(h, p), Release(h, q);
    ReleaseLive(h, p);
    ReleaseLive(s, q);
    ReleaseLive(h, q);
    ReleaseLive(t, p);
    assert h.live - {p - HEADER} - {q - HEADER} == h.live - {q - HEADER} - {p - HEADER};
  }

  lemma ReleaseCommutes(h: Heap, p: nat, q: nat)
    requires WellFormed(h)
    ensures Release(Release(h, p), q) == Release(Release(h, q), p)
  {
    ReleaseTwiceLive(h, p, q);
    ReleaseTwiceKeeps(h, p, q);
    ReleaseTwiceKeeps(h, q, p);
    SameHeap(Release(Release(h, p), q), Release(Release(h, q), p));
  }

  lemma AllocateThenReleaseKeeps(h: Heap, n: nat)
    requires WellFormed(h)
    ensures WellFormed(Release(Allocate(h, n).0, Allocate(h, n).1))
  {
    AllocateKeeps(h, n);
    ReleaseKeeps(Allocate(h, n).0, Allocate(h, n).1);
  }

  lemma AllocateLive(h: Heap, n: nat)
    requires WellFormed(h)
    ensures var h', p := Allocate(h, n).0, Allocate(h, n).1;
      h'.lo == h.lo && h'.hi == h.hi && h'.live - {p - HEADER} == h.live
  {
    hide Need;
    if Allocate(h, n).1 != 0 {
      FreeStartNotLive(h, FirstFit(h.free, Need(n)));
    }
  }

  lemma AllocateThenReleaseLive(h: Heap, n: nat)
    requires WellFormed(h)
    ensures SameLive(Release(Allocate(h, n).0, Allocate(h, n).1), h.(low := Allocate(h, n).0.low))
  {
    hide Allocate, Release, WellFormed;
    ReleaseLive(Allocate(h, n).0, Allocate(h, n).1);
    AllocateLive(h, n);
  }

  lemma LowerMarkKeeps(h: Heap, low: int)
    requires WellFormed(h) && low <= h.low
    ensures WellFormed(h.(low := low))
  {
  }

  /** Giving back what was just taken restores everything but the low-water mark. */
  lemma AllocateThenRelease(h: Heap, n: nat)
    requires WellFormed(h)
    ensures Release(Allocate(h, n).0, Allocate(h, n).1) == h.(low := Allocate(h, n).0.low)
  {
    AllocateThenReleaseLive(h, n);
    AllocateThenReleaseKeeps(h, n);
    LowerMarkKeeps(h, Allocate(h, n).0.low);
    SameHeap(Release(Allocate(h, n).0, Allocate(h, n).1), h.(low := Allocate(h, n).0.low));
  }

  function ReleaseAll(h: Heap, ps: seq<nat>): Heap
    decreases |ps|
  {
    if ps == [] then h else ReleaseAll(Release(h, ps[0]), ps[1..])
  }

  /** Freeing every live block, in any order and with any repeats, leaves the heap as it was at the
      start but for the low-water mark. */
  lemma {:induction false} FullRecovery(h: Heap, ps: seq<nat>)
    requires WellFormed(h)
    requires forall a | a in h.live :: a + HEADER in ps
    ensures ReleaseAll(h, ps) == Fresh(h.lo, h.hi).(low := h.low)
    decreases |ps|
  {
    if ps == [] {
      assert h.live == map[];
      FreshWellFormed(h.lo, h.hi);
      FreeListDetermined(h, Fresh(h.lo, h.hi).(low := h.low));
    } else {
      ReleaseKeeps(h, ps[0]);
      FullRecovery(Release(h, ps[0]), ps[1..]);
    }
  }

  // ---- fragmentation ----

  /** Right after each free block but the last there is a live one. */
  lemma LiveAfterFree(h: Heap, i: nat)
    requires WellFormed(h) && i + 1 < |h.free|
    ensures h.free[i].End() in h.live
  {
    var e := h.free[i].End();
    EdgesUncovered(h.free, i);
    assert BlockOk(h.lo, h.hi, h.free[i + 1]) && BlockOk(h.lo, h.hi, h.free[i]);
    assert InUse(h.live, e);
    var a :| a in h.live && a <= e < a + h.live[a];
    FreeApartFromLive(h, i, a);
  }

  /** The ends of the first `k` free blocks. */
  ghost function Ends(f: seq<Span>, k: nat): (es: set<nat>)
    requires k <= |f|
  {
    set i | 0 <= i < k :: f[i].End()
  }

  lemma EndsStep(f: seq<Span>, k: nat)
    requires Separated(f) && 0 < k <= |f|
    ensures Ends(f, k) == Ends(f, k - 1) + {f[k - 1].End()} && f[k - 1].End() !in Ends(f, k - 1)
  {
  }

  lemma {:induction false} EndsCount(f: seq<Span>, k: nat)
    requires Separated(f) && k <= |f|
    ensures |Ends(f, k)| == k
  {
    hide Separated;
    if k == 0 {
      assert Ends(f, k) == {};
    } else {
      EndsCount(f, k - 1);
      EndsStep(f, k);
    }
  }

  lemma {:induction false} SubsetCount<T>(a: set<T>, b: set<T>)
    requires a <= b
    ensures |a| <= |b|
    decreases |a|
  {
    if a != {} {
      var x :| x in a;
      SubsetCount(a - {x}, b - {x});
    }
  }

  /** The free list, and with it each walk along it, is at most one longer than the number of live blocks. */
  lemma Fragmentation(h: Heap)
    requires WellFormed(h)
    ensures |h.free| <= |h.live| + 1
  {
    if |h.free| > 1 {
      var k := |h.free| - 1;
      forall e | e in Ends(h.free, k)
        ensures e in h.live.Keys
      {
        var i :| 0 <= i < k && h.free[i].End() == e;
        LiveAfterFree(h, i);
      }
      EndsCount(h.free, k);
      SubsetCount(Ends(h.free, k), h.live.Keys);
      assert |h.live.Keys| == |h.live|;
    }
  }

  // ---- exact first fit ----

  /** A block holds a request with its header if and only if it holds it rounded up, because its own size is
      rounded. */
  lemma HoldsRounded(h: Heap, n: nat, i: nat)
    requires WellFormed(h) && i < |h.free|
    ensures Need(n) <= h.free[i].size <==> n + 16 <= h.free[i].size
  {
    hide Need;
    assert BlockOk(h.lo, h.hi, h.free[i]);
  }

  /** Allocation fails exactly for a zero request, one with the top bit set, and one that no single
      free block can hold with its header; then nothing changes. */
  lemma FailsExactly(h: Heap, n: nat)
    requires WellFormed(h)
    ensures Allocate(h, n).1 == 0
       <==> n == 0 || 0x8000_0000_0000_0000 <= n || forall i | 0 <= i < |h.free| :: h.free[i].size < n + 16
    ensures Allocate(h, n).1 == 0 ==> Allocate(h, n).0 == h
  {
    var i := FirstFit(h.free, Need(n));
    forall j | 0 <= j < |h.free|
      ensures Need(n) <= h.free[j].size <==> n + 16 <= h.free[j].size
    {
      HoldsRounded(h, n, j);
    }
    assert i < |h.free| ==> !(h.free[i].size < n + 16);
  }

  /** Otherwise the lowest free block that fits is used, and the byte counter never stood in the way. */
  lemma UsesLowestFit(h: Heap, n: nat)
    requires WellFormed(h) && Allocate(h, n).1 != 0
    ensures exists b :: b in h.free && Allocate(h, n).1 == b.addr + 16 && n + 16 <= b.size
    ensures forall b | b in h.free && n + 16 <= b.size :: Allocate(h, n).1 <= b.addr + 16
    ensures Need(n) <= h.left
  {
    var i := FirstFit(h.free, Need(n));
    assert h.free[i] in h.free;
    TotalAtLeast(h.free, i);
    forall b | b in h.free && n + 16 <= b.size
      ensures h.free[i].addr <= b.addr
    {
      var j :| 0 <= j < |h.free| && h.free[j] == b;
      HoldsRounded(h, n, j);
      assert i < j ==> h.free[i].End() < h.free[j].addr;
    }
  }

  /** The split rule. A block that a grant leaves behind has more than 32 bytes; and a grant is a whole free block,
      or the request with its header rounded up to eight bytes and no more. */
  lemma SplitsExactly(h: Heap, n: nat)
    requires WellFormed(h) && Allocate(h, n).1 != 0
    ensures var (h', p) := Allocate(h, n);
      && (forall b | b in h'.free && b !in h.free :: b.size > 32)
      && 16 <= p && p - 16 in h'.live
      && (Span(p - 16, h'.live[p - 16]) in h.free || n + 16 <= h'.live[p - 16] < n + 24)
  {
    var i := FirstFit(h.free, Need(n));
    assert h.free[i] in h.free;
  }

  // ---- payloads ----

  /** A granted payload is aligned, holds the request, and wastes at most 55 bytes with its header. */
  lemma GrantBounds(h: Heap, n: nat)
    requires WellFormed(h) && Allocate(h, n).1 != 0
    ensures var (h', p) := Allocate(h, n);
      && 16 <= p && p % 8 == 0 && p - 16 !in h.live
      && p - 16 in h'.live && h'.live - {p - 16} == h.live
      && n + 16 <= h'.live[p - 16] <= n + 55
  {
    var i := FirstFit(h.free, Need(n));
    FreeStartNotLive(h, i);
    assert BlockOk(h.lo, h.hi, h.free[i]);
  }

  lemma StepKeepsOwned(h: Heap, op: Op, a: nat)
    requires WellFormed(h) && a in h.live && op != Free(a + HEADER)
    ensures a in Step(h, op).live && Step(h, op).live[a] == h.live[a]
  {
    if op.Alloc? && Allocate(h, op.n).1 != 0 {
      FreeStartNotLive(h, FirstFit(h.free, Need(op.n)));
    }
  }

  /** A block keeps its place and size until its own pointer is freed, whatever else is called. */
  lemma {:induction false} OwnershipPersists(h: Heap, ops: seq<Op>, a: nat)
    requires WellFormed(h) && a in h.live && Free(a + HEADER) !in ops
    ensures a in Run(h, ops).live && Run(h, ops).live[a] == h.live[a]
    decreases |ops|
  {
    if ops != [] {
      StepKeepsOwned(h, ops[0], a);
      StepKeeps(h, ops[0]);
      OwnershipPersists(Step(h, ops[0]), ops[1..], a);
    }
  }

  /** A byte of a live payload lies in the range, in no other live block, in no free block, and clear
      of every header. */
  lemma PayloadIsolated(h: Heap, a: nat, x: int)
    requires WellFormed(h) && a in h.live && a + HEADER <= x < a + h.live[a]
    ensures h.lo <= x < h.hi
    ensures forall b | b in h.live && b != a :: !(b <= x < b + h.live[b])
    ensures forall i | 0 <= i < |h.free| :: !h.free[i].Has(x)
  {
    assert BlockOk(h.lo, h.hi, Span(a, h.live[a]));
    assert InUse(h.live, x);
    assert !Covered(h.free, x);
  }

  /** Every byte of the range lies in exactly one block, free or live. */
  lemma Partition(h: Heap, x: int)
    requires WellFormed(h) && h.lo <= x < h.hi
    ensures (exists i :: 0 <= i < |h.free| && h.free[i].Has(x)) != (exists a :: a in h.live && a <= x < a + h.live[a])
    ensures forall i, j | 0 <= i < |h.free| && 0 <= j < |h.free| && h.free[i].Has(x) && h.free[j].Has(x) :: i == j
    ensures forall a, b | a in h.live && b in h.live && a <= x < a + h.live[a] && b <= x < b + h.live[b] :: a == b
  {
    assert Covered(h.free, x) <==> !InUse(h.live, x);
    forall i, j | 0 <= i < |h.free| && 0 <= j < |h.free| && h.free[i].Has(x) && h.free[j].Has(x)
      ensures i == j
    {
    }
  }

  // ---- block sizes ----

  /** Every block has room for more than a header. */
  ghost predicate Ample(h: Heap) {
    && (forall b | b in h.free :: HEADER + ALIGN <= b.size)
    && (forall a | a in h.live :: HEADER + ALIGN <= h.live[a])
  }

  lemma LiveAmple(h: Heap, a: nat)
    requires LiveOk(h) && a in h.live
    ensures HEADER + ALIGN <= h.live[a]
  {
    assert BlockOk(h.lo, h.hi, Span(a, h.live[a]));
  }

  lemma NewFree(h: Heap, n: nat, b: Span)
    requires b in Allocate(h, n).0.free && b !in h.free
    ensures HEADER + ALIGN <= b.size
  {
  }

  lemma NewJoined(h: Heap, p: nat, b: Span)
    requires b in Release(h, p).free && b !in h.free
    ensures HEADER <= p && p - HEADER in h.live && h.live[p - HEADER] <= b.size
  {
  }

  lemma StepAmple(h: Heap, op: Op)
    requires WellFormed(h) && Ample(h)
    ensures Ample(Step(h, op))
  {
    var h' := Step(h, op);
    StepKeeps(h, op);
    forall a | a in h'.live
      ensures HEADER + ALIGN <= h'.live[a]
    {
      LiveAmple(h', a);
    }
    hide WellFormed;
    forall b | b in h'.free
      ensures HEADER + ALIGN <= b.size
    {
      if b !in h.free {
        match op {
          case Alloc(n) => NewFree(h, n, b);
          case Free(p) => NewJoined(h, p, b);
        }
      }
    }
  }

  lemma {:induction false} RunAmple(h: Heap, ops: seq<Op>)
    requires WellFormed(h) && Ample(h)
    ensures Ample(Run(h, ops))
    decreases |ops|
  {
    if ops != [] {
      StepAmple(h, ops[0]);
      StepKeeps(h, ops[0]);
      RunAmple(Step(h, ops[0]), ops[1..]);
    }
  }

  /** From a range of at least 24 bytes every block of every reachable state has at least 24, so that its
      header always fits. */
  lemma BlocksAmple(lo: nat, hi: nat, ops: seq<Op>)
    requires 0 < lo && lo % ALIGN == 0 && hi % ALIGN == 0 && lo + HEADER + ALIGN <= hi
    ensures var h := Run(Fresh(lo, hi), ops);
      (forall b | b in h.free :: 24 <= b.size) && (forall a | a in h.live :: 24 <= h.live[a])
  {
    FreshWellFormed(lo, hi);
    RunAmple(Fresh(lo, hi), ops);
  }

  // ---- counters ----

  /** `left` before the run and after each of its calls. */
  function Lefts(h: Heap, ops: seq<Op>): seq<int>
    decreases |ops|
  {
    [h.left] + if ops == [] then [] else Lefts(Step(h, ops[0]), ops[1..])
  }

  /** `low` is the least value `left` had at any point of the run, or the mark it started from. */
  lemma {:induction false} WatermarkFrom(h: Heap, ops: seq<Op>)
    requires WellFormed(h)
    ensures Run(h, ops).low <= h.low && forall l | l in Lefts(h, ops) :: Run(h, ops).low <= l
    ensures Run(h, ops).low == h.low || Run(h, ops).low in Lefts(h, ops)
    decreases |ops|
  {
    if ops != [] {
      StepKeeps(h, ops[0]);
      WatermarkFrom(Step(h, ops[0]), ops[1..]);
      assert Step(h, ops[0]).low == h.low || Step(h, ops[0]).low == Step(h, ops[0]).left;
      assert Step(h, ops[0]).left == Lefts(Step(h, ops[0]), ops[1..])[0];
    }
  }

  /** Since initialisation: exactly the minimum. */
  lemma Watermark(lo: nat, hi: nat, ops: seq<Op>)
    requires 0 < lo && lo % ALIGN == 0 && hi % ALIGN == 0 && lo + HEADER <= hi
    ensures var h := Fresh(lo, hi);
      && Run(h, ops).low in Lefts(h, ops)
      && forall l | l in Lefts(h, ops) :: Run(h, ops).low <= l
  {
    FreshWellFormed(lo, hi);
    WatermarkFrom(Fresh(lo, hi), ops);
    assert Lefts(Fresh(lo, hi), ops)[0] == hi - lo;
  }

  /** No byte is lost or counted twice: in every reachable state `left` is the free bytes, and with the
      live blocks it makes up the whole range. */
  lemma Conservation(lo: nat, hi: nat, ops: seq<Op>)
    requires 0 < lo && lo % ALIGN == 0 && hi % ALIGN == 0 && lo + HEADER <= hi
    ensures var h := Run(Fresh(lo, hi), ops);
      WellFormed(h) && h.left == Total(h.free) && h.left + LiveTotal(h.live) == hi - lo
  {
    FreshWellFormed(lo, hi);
    RunKeeps(Fresh(lo, hi), ops);
    RunKeepsRange(Fresh(lo, hi), ops);
  }
}
