/** The allocator's state as a value, what one call does to it, and what every run of calls keeps.
    Addresses and sizes are in bytes; a pointer is an address and 0 is the null pointer. */
module HeapModel {
  import opened Spans

  const ALLOC_BIT: nat := 0x8000_0000_0000_0000
  const HEADER: nat := 16
  const ALIGN: nat := 8
  const MIN_BLOCK: nat := 2 * HEADER

  /** `lo .. hi` is the managed range and `hi` the end marker. `live` maps the address of each block in
      use to its size, header included; `left` counts free bytes and `low` is its low-water mark. */
  datatype Heap = Heap(lo: nat, hi: nat, free: seq<Span>, live: map<nat, nat>, left: int, low: int)

  function Fresh(lo: nat, hi: nat): Heap
    requires lo <= hi
  {
    Heap(lo, hi, [Span(lo, hi - lo)], map[], hi - lo, hi - lo)
  }

  /** A request with room for the header, rounded up to the alignment. */
  function Need(n: nat): (size: nat)
    ensures n + 16 <= size < n + 24 && size % 8 == 0
  {
    var size := n + HEADER;
    if size % ALIGN != 0 then size + (ALIGN - size % ALIGN) else size
  }

  /** The index of the first span of at least `need` bytes, or `|f|`. */
  function FirstFit(f: seq<Span>, need: nat): (i: nat)
    ensures i <= |f|
    ensures forall j | 0 <= j < i :: f[j].size < need
    ensures i < |f| ==> need <= f[i].size
  {
    if f == [] || need <= f[0].size then 0 else 1 + FirstFit(f[1..], need)
  }

  /** The bytes a request takes from the block `b`: all of it unless a block worth keeping is left. */
  function Taken(b: Span, need: nat): (size: nat)
    requires need <= b.size
    ensures need <= size <= b.size && size <= need + MIN_BLOCK
  {
    if b.size - need > MIN_BLOCK then need else b.size
  }

  function Remainder(b: Span, taken: nat): seq<Span>
    requires taken <= b.size
  {
    if taken < b.size then [Span(b.addr + taken, b.size - taken)] else []
  }

  function Allocate(h: Heap, n: nat): (Heap, nat) {
    var i := FirstFit(h.free, Need(n));
    if n == 0 || ALLOC_BIT <= n || i == |h.free| then
      (h, 0)
    else
      var b := h.free[i];
      var taken := Taken(b, Need(n));
      var left := h.left - taken;
      (h.(free := h.free[..i] + Remainder(b, taken) + h.free[i + 1..],
          live := h.live[b.addr := taken],
          left := left,
          low := if left < h.low then left else h.low),
       b.addr + HEADER)
  }

  /** Pointers that are not in use, the null pointer among them, are left alone. */
  function Release(h: Heap, p: nat): Heap {
    if p < HEADER || p - HEADER !in h.live then
      h
    else
      var b := Span(p - HEADER, h.live[p - HEADER]);
      h.(free := Insert(h.free, b), live := h.live - {b.addr}, left := h.left + b.size)
  }

  datatype Op = Alloc(n: nat) | Free(p: nat)

  function Step(h: Heap, op: Op): Heap {
    match op
    case Alloc(n) => Allocate(h, n).0
    case Free(p) => Release(h, p)
  }

  function Run(h: Heap, ops: seq<Op>): Heap
    decreases |ops|
  {
    if ops == [] then h else Run(Step(h, ops[0]), ops[1..])
  }

  // ---- the invariant ----

  ghost predicate InUse(live: map<nat, nat>, x: int) {
    exists a :: a in live && a <= x < a + live[a]
  }

  /** The size of all live blocks together. */
  ghost function LiveTotal(live: map<nat, nat>): nat {
    if live == map[] then 0 else
      var a :| a in live;
      live[a] + LiveTotal(live - {a})
  }

  /** Room for a header, aligned, inside the range. */
  ghost predicate BlockOk(lo: nat, hi: nat, b: Span) {
    lo <= b.addr && b.End() <= hi && HEADER <= b.size && b.addr % ALIGN == 0 && b.size % ALIGN == 0
  }

  ghost predicate FreeOk(h: Heap) {
    Separated(h.free) && forall i | 0 <= i < |h.free| :: BlockOk(h.lo, h.hi, h.free[i])
  }

  ghost predicate LiveOk(h: Heap) {
    && (forall a | a in h.live :: BlockOk(h.lo, h.hi, Span(a, h.live[a])) && HEADER < h.live[a])
    && (forall a, b | a in h.live && b in h.live && a < b :: a + h.live[a] <= b)
  }

  /** Every byte of the range belongs to a free block or to a live one, never to both. */
  ghost predicate Tiled(h: Heap) {
    forall x: int | h.lo <= x < h.hi :: Covered(h.free, x) <==> !InUse(h.live, x)
  }

  ghost predicate Counted(h: Heap) {
    && h.left == Total(h.free)
    && h.left + LiveTotal(h.live) == h.hi - h.lo
    && h.low <= h.left
  }

  ghost predicate WellFormed(h: Heap) {
    && 0 < h.lo && h.lo % ALIGN == 0 && h.hi % ALIGN == 0 && h.lo + HEADER <= h.hi
    && FreeOk(h) && LiveOk(h) && Tiled(h) && Counted(h)
  }

  lemma {:induction false} LiveTotalRemove(live: map<nat, nat>, a: nat)
    requires a in live
    ensures LiveTotal(live) == live[a] + LiveTotal(live - {a})
    decreases |live|
  {
    var b :| b in live && LiveTotal(live) == live[b] + LiveTotal(live - {b});
    if a != b {
      LiveTotalRemove(live - {b}, a);
      LiveTotalRemove(live - {a}, b);
      assert live - {b} - {a} == live - {a} - {b};
    }
  }

  lemma LiveTotalAdd(live: map<nat, nat>, a: nat, size: nat)
    requires a !in live
    ensures LiveTotal(live[a := size]) == LiveTotal(live) + size
  {
    LiveTotalRemove(live[a := size], a);
    assert live[a := size] - {a} == live;
  }

  lemma FreshWellFormed(lo: nat, hi: nat)
    requires 0 < lo && lo % ALIGN == 0 && hi % ALIGN == 0 && lo + HEADER <= hi
    ensures WellFormed(Fresh(lo, hi))
  {
    var h := Fresh(lo, hi);
    assert Total(h.free) == h.free[0].size + Total(h.free[1..]);
    forall x: int | lo <= x < hi
      ensures Covered(h.free, x)
    {
      assert h.free[0].Has(x);
    }
  }

  // ---- what one call keeps ----

  /** A free block and a live block never overlap. */
  lemma FreeApartFromLive(h: Heap, i: nat, a: nat)
    requires FreeOk(h) && LiveOk(h) && Tiled(h) && i < |h.free| && a in h.live
    ensures h.free[i].End() <= a || a + h.live[a] <= h.free[i].addr
  {
    var b := h.free[i];
    var x := if b.addr <= a then a else b.addr;
    if b.Has(x) && a <= x < a + h.live[a] {
      assert Covered(h.free, x) && InUse(h.live, x);
      assert false;
    }
  }

  lemma FreeStartNotLive(h: Heap, i: nat)
    requires FreeOk(h) && LiveOk(h) && Tiled(h) && i < |h.free|
    ensures h.free[i].addr !in h.live
  {
    if h.free[i].addr in h.live {
      FreeApartFromLive(h, i, h.free[i].addr);
    }
  }

  /** Cutting the first `taken` bytes off a free block. */
  lemma CutSeparated(f: seq<Span>, i: nat, taken: nat)
    requires Separated(f) && i < |f| && 0 < taken <= f[i].size
    ensures Separated(f[..i] + Remainder(f[i], taken) + f[i + 1..])
  {
  }

  lemma CutCovers(f: seq<Span>, i: nat, taken: nat, x: int)
    requires Separated(f) && i < |f| && 0 < taken <= f[i].size
    ensures Covered(f[..i] + Remainder(f[i], taken) + f[i + 1..], x)
       <==> Covered(f, x) && !(f[i].addr <= x < f[i].addr + taken)
  {
    var r := Remainder(f[i], taken);
    var g := f[..i] + r + f[i + 1..];
    forall j | 0 <= j < |f| && j != i
      ensures f[j] == g[if j < i then j else j - 1 + |r|] && !(f[j].Has(x) && f[i].Has(x))
    {
    }
    forall j | 0 <= j < |g| && !(r != [] && j == i)
      ensures g[j] == f[if j < i then j else j + 1 - |r|]
    {
    }
    assert r != [] ==> g[i] == r[0];
  }

  lemma CutTotal(f: seq<Span>, i: nat, taken: nat)
    requires i < |f| && taken <= f[i].size
    ensures Total(f[..i] + Remainder(f[i], taken) + f[i + 1..]) == Total(f) - taken
  {
    TotalSplice(f, i, i + 1, Remainder(f[i], taken));
    assert f[i..i + 1] == [f[i]];
    assert taken < f[i].size ==> Remainder(f[i], taken)[1..] == [];
  }

  lemma CutBounds(h: Heap, i: nat, taken: nat)
    requires FreeOk(h) && i < |h.free|
    requires taken == h.free[i].size || (taken % ALIGN == 0 && 0 < taken && taken + HEADER <= h.free[i].size)
    ensures FreeOk(h.(free := h.free[..i] + Remainder(h.free[i], taken) + h.free[i + 1..]))
  {
    var r := Remainder(h.free[i], taken);
    var g := h.free[..i] + r + h.free[i + 1..];
    CutSeparated(h.free, i, taken);
    forall j | 0 <= j < |g|
      ensures g[j] == if j < i then h.free[j] else if j < i + |r| then r[0] else h.free[j + 1 - |r|]
    {
    }
  }

  lemma AddLive(h: Heap, a: nat, size: nat)
    requires LiveOk(h) && HEADER < size && BlockOk(h.lo, h.hi, Span(a, size))
    requires forall c | c in h.live :: a + size <= c || c + h.live[c] <= a
    ensures LiveOk(h.(live := h.live[a := size]))
  {
  }

  lemma AddedInUse(live: map<nat, nat>, a: nat, size: nat, x: int)
    requires a !in live
    ensures InUse(live[a := size], x) <==> InUse(live, x) || a <= x < a + size
  {
    var more := live[a := size];
    assert a in more;
    forall b | b in live
      ensures b in more && more[b] == live[b]
    {
    }
  }

  lemma AllocateTiles(h: Heap, n: nat)
    requires FreeOk(h) && LiveOk(h) && Tiled(h)
    ensures Tiled(Allocate(h, n).0)
  {
    var h', p := Allocate(h, n).0, Allocate(h, n).1;
    if p != 0 {
      var i := FirstFit(h.free, Need(n));
      var b := h.free[i];
      var taken := Taken(b, Need(n));
      FreeStartNotLive(h, i);
      forall x: int | h.lo <= x < h.hi
        ensures Covered(h'.free, x) <==> !InUse(h'.live, x)
      {
        CutCovers(h.free, i, taken, x);
        AddedInUse(h.live, b.addr, taken, x);
        assert b.addr <= x < b.addr + taken ==> b.Has(x);
      }
    }
  }

  lemma AllocateKeeps(h: Heap, n: nat)
    requires WellFormed(h)
    ensures WellFormed(Allocate(h, n).0)
  {
    hide Separated, Covered, InUse, Tiled, LiveTotal, Total;
    var h', p := Allocate(h, n).0, Allocate(h, n).1;
    if p != 0 {
      var i := FirstFit(h.free, Need(n));
      var b := h.free[i];
      var taken := Taken(b, Need(n));
      assert Need(n) % ALIGN == 0;
      CutBounds(h, i, taken);
      CutTotal(h.free, i, taken);
      forall a | a in h.live
        ensures b.End() <= a || a + h.live[a] <= b.addr
      {
        FreeApartFromLive(h, i, a);
      }
      AddLive(h, b.addr, taken);
      LiveTotalAdd(h.live, b.addr, taken);
      AllocateTiles(h, n);
      assert FreeOk(h') && LiveOk(h') && Tiled(h') && Counted(h');
    }
  }

  lemma RemovedInUse(h: Heap, a: nat, x: int)
    requires LiveOk(h) && a in h.live
    ensures InUse(h.live - {a}, x) <==> InUse(h.live, x) && !(a <= x < a + h.live[a])
  {
    var less := h.live - {a};
    forall b | b in h.live && b != a
      ensures b in less && less[b] == h.live[b]
    {
    }
  }

  /** A live block overlaps no free block. */
  lemma LiveApart(h: Heap, a: nat)
    requires FreeOk(h) && LiveOk(h) && Tiled(h) && a in h.live
    ensures Apart(h.free, Span(a, h.live[a]))
  {
    forall i | 0 <= i < |h.free|
      ensures h.free[i].End() <= a || a + h.live[a] <= h.free[i].addr
    {
      FreeApartFromLive(h, i, a);
    }
  }

  lemma AlignedSum(a: nat, b: nat, c: nat)
    requires a % ALIGN == 0 && b % ALIGN == 0 && c % ALIGN == 0
    ensures (a + b + c) % ALIGN == 0
  {
    assert a + b + c == 8 * (a / 8 + b / 8 + c / 8);
  }

  lemma JoinedParts(f: seq<Span>, b: Span, k: nat, lo: nat, hi: nat)
    requires k <= |f| && BlockOk(lo, hi, b)
    requires 0 < k ==> BlockOk(lo, hi, f[k - 1])
    requires k < |f| ==> BlockOk(lo, hi, f[k])
    ensures BlockOk(lo, hi, Joined(f, b, k))
  {
    var left := if JoinFrom(f, b, k) < k then f[k - 1] else Span(b.addr, 0);
    var right := if k < JoinUpTo(f, b, k) then f[k] else Span(b.End(), 0);
    AlignedSum(left.size, b.size, right.size);
    assert Joined(f, b, k) == Span(left.addr, left.size + b.size + right.size);
  }

  lemma JoinedOk(h: Heap, b: Span)
    requires FreeOk(h) && Apart(h.free, b) && BlockOk(h.lo, h.hi, b)
    ensures BlockOk(h.lo, h.hi, Joined(h.free, b, Position(h.free, b.addr)))
  {
    var k := Position(h.free, b.addr);
    JoinedParts(h.free, b, k, h.lo, h.hi);
  }

  lemma InsertBounds(h: Heap, b: Span)
    requires FreeOk(h) && Apart(h.free, b) && BlockOk(h.lo, h.hi, b)
    ensures FreeOk(h.(free := Insert(h.free, b)))
  {
    var f, g := h.free, Insert(h.free, b);
    InsertSeparated(f, b);
    JoinedOk(h, b);
    forall j | 0 <= j < |g|
      ensures g[j] in f || g[j] == Joined(f, b, Position(f, b.addr))
    {
    }
  }

  lemma ReleaseTiles(h: Heap, p: nat)
    requires FreeOk(h) && LiveOk(h) && Tiled(h)
    ensures Tiled(Release(h, p))
  {
    if HEADER <= p && p - HEADER in h.live {
      var h' := Release(h, p);
      var b := Span(p - HEADER, h.live[p - HEADER]);
      LiveApart(h, b.addr);
      forall x: int | h.lo <= x < h.hi
        ensures Covered(h'.free, x) <==> !InUse(h'.live, x)
      {
        InsertCovers(h.free, b, x);
        RemovedInUse(h, b.addr, x);
      }
    }
  }

  lemma ReleaseKeeps(h: Heap, p: nat)
    requires WellFormed(h)
    ensures WellFormed(Release(h, p))
  {
    if HEADER <= p && p - HEADER in h.live {
      var b := Span(p - HEADER, h.live[p - HEADER]);
      LiveApart(h, b.addr);
      InsertBounds(h, b);
      InsertTotal(h.free, b);
      LiveTotalRemove(h.live, b.addr);
      ReleaseTiles(h, p);
      assert LiveOk(Release(h, p)) && FreeOk(Release(h, p)) && Counted(Release(h, p));
    }
  }

  lemma StepKeeps(h: Heap, op: Op)
    requires WellFormed(h)
    ensures WellFormed(Step(h, op))
  {
    match op {
      case Alloc(n) => AllocateKeeps(h, n);
      case Free(p) => ReleaseKeeps(h, p);
    }
  }

  lemma {:induction false} RunKeeps(h: Heap, ops: seq<Op>)
    requires WellFormed(h)
    ensures WellFormed(Run(h, ops))
    decreases |ops|
  {
    if ops != [] {
      StepKeeps(h, ops[0]);
      RunKeeps(Step(h, ops[0]), ops[1..]);
    }
  }
}
