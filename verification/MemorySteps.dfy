/** How the words of the buffer follow the abstract heap through one call. */
module MemorySteps {
  import opened Spans
  import opened HeapModel
  import opened MemoryImage

  /** The header at `g` is aligned, lies in the range, meets no live block, and meets a free header only by being
      that header. */
  ghost predicate StaleAt(h: Heap, g: nat) {
    && Aligned(g) && h.lo <= g && g + HEADER <= h.hi
    && (forall a | a in h.live :: g + HEADER <= a || a + h.live[a] <= g)
    && (forall i | 0 <= i < |h.free| ::
          g == h.free[i].addr || g + HEADER <= h.free[i].addr || h.free[i].addr + HEADER <= g)
  }

  ghost predicate StaleIn(h: Heap, stale: set<nat>) {
    forall g | g in stale :: StaleAt(h, g)
  }

  /** Those of `stale` whose headers nothing in `h` has reused. */
  ghost function StillStale(h: Heap, stale: set<nat>): set<nat> {
    set g | g in stale && StaleAt(h, g)
  }

  /** An allocation keeps stale every header it does not reuse. */
  lemma StaysStale(h: Heap, n: nat, stale: set<nat>)
    requires StaleIn(h, stale)
    ensures var h' := Allocate(h, n).0; forall g | g in stale
      && (forall a | a in h'.live :: g + HEADER <= a || a + h'.live[a] <= g)
      && (forall i | 0 <= i < |h'.free| ::
            g == h'.free[i].addr || g + HEADER <= h'.free[i].addr || h'.free[i].addr + HEADER <= g) ::
      g in StillStale(h', stale)
  {
    hide FirstFit, Need, Taken, Remainder;
    forall g | g in stale
      ensures StaleAt(h, g)
    {
    }
  }

  /** `x` lies in no header of `f`. */
  ghost predicate OutsideHeaders(f: seq<Span>, x: int) {
    forall i | 0 <= i < |f| :: !(f[i].addr <= x < f[i].addr + HEADER)
  }

  /** Insertion writes only headers: those of the list and that of the inserted block. */
  lemma SplicedElsewhere(was: Image, now: Image, f: seq<Span>, b: Span, k: nat, x: int)
    requires Place(f, b, k)
    requires now.Spliced(was, f, JoinFrom(f, b, k), JoinUpTo(f, b, k), Joined(f, b, k))
    requires OutsideHeaders(f, x) && !(b.addr <= x < b.addr + HEADER)
    ensures now.At(x) == was.At(x)
  {
  }

  /** No merge ever puts the tag into a header, not even into one it swallows. */
  lemma SplicedUntagged(was: Image, now: Image, f: seq<Span>, b: Span, k: nat, g: int)
    requires Roomy(f) && Place(f, b, k) && HEADER <= b.size
    requires now.Spliced(was, f, JoinFrom(f, b, k), JoinUpTo(f, b, k), Joined(f, b, k))
    requires was.At(g + 8) < ALLOC_BIT && Joined(f, b, k).size < ALLOC_BIT
    requires g == b.addr || g + HEADER <= b.addr || b.addr + HEADER <= g
    requires forall i | 0 <= i < |f| :: g == f[i].addr || g + HEADER <= f[i].addr || f[i].addr + HEADER <= g
    ensures now.At(g + 8) < ALLOC_BIT
  {
    var l, m := JoinFrom(f, b, k), Joined(f, b, k);
    assert m.addr == b.addr || (l < k && m.addr == f[l].addr);
    assert 0 < l ==> g + 8 != f[l - 1].addr;
    assert g + 8 != m.addr;
  }

  /** A live block lies outside every free header. */
  lemma LiveOutside(h: Heap, a: nat, x: int)
    requires WellFormed(h) && a in h.live && a <= x < a + h.live[a]
    ensures OutsideHeaders(h.free, x)
  {
    forall i | 0 <= i < |h.free|
      ensures !(h.free[i].addr <= x < h.free[i].addr + HEADER)
    {
      FreeApartFromLive(h, i, a);
      assert BlockOk(h.lo, h.hi, h.free[i]);
    }
  }

  lemma EndOutside(h: Heap, x: int)
    requires WellFormed(h) && h.hi <= x
    ensures OutsideHeaders(h.free, x)
  {
    forall i | 0 <= i < |h.free|
      ensures !(h.free[i].addr <= x < h.free[i].addr + HEADER)
    {
      assert BlockOk(h.lo, h.hi, h.free[i]);
    }
  }

  lemma HeapRoomy(h: Heap)
    requires WellFormed(h)
    ensures Roomy(h.free)
    ensures forall i | 0 <= i < |h.free| :: h.lo <= h.free[i].addr && h.free[i].End() <= h.hi
    ensures Aligned(h.hi) && forall i | 0 <= i < |h.free| :: Aligned(h.free[i].addr)
  {
    forall i | 0 <= i < |h.free|
      ensures HEADER <= h.free[i].size && h.lo <= h.free[i].addr && h.free[i].End() <= h.hi
    {
      assert BlockOk(h.lo, h.hi, h.free[i]);
    }
  }

  /** One free block over the whole range. */
  lemma FreshRepresents(mem: Image, lo: nat, hi: nat)
    requires lo + HEADER <= hi && mem.head == lo && mem.end == hi
    requires mem.At(lo) == hi && mem.At(lo + 8) == hi - lo && mem.At(hi) == NULL && mem.At(hi + 8) == 0
    ensures mem.Represents(Fresh(lo, hi))
  {
  }

  // ---- free ----

  /** `mid` is `was` with the tag of the block at `a` taken off. */
  ghost predicate TagCleared(was: Image, mid: Image, a: nat, size: nat) {
    && mid.base == was.base && mid.head == was.head && mid.end == was.end && mid.At(a + 8) == size
    && forall x :: x == a + 8 || mid.At(x) == was.At(x)
  }

  lemma ClearedChain(h: Heap, was: Image, mid: Image, a: nat)
    requires WellFormed(h) && was.Represents(h) && a in h.live && TagCleared(was, mid, a, h.live[a])
    ensures mid.Chain(h.free)
  {
    assert BlockOk(h.lo, h.hi, Span(a, h.live[a]));
    LiveOutside(h, a, a + 8);
    forall i | 0 <= i < |h.free|
      ensures mid.At(h.free[i].addr) == was.At(h.free[i].addr)
      ensures mid.At(h.free[i].addr + 8) == was.At(h.free[i].addr + 8)
    {
    }
    forall i | 0 < i <= |h.free|
      ensures mid.At(h.free[i - 1].addr) == Link(h.free, i, mid.end)
    {
      assert was.At(h.free[i - 1].addr) == Link(h.free, i, was.end);
    }
  }

  /** The state between the walk of a free and its end: `b` was live in `h` and is now on the list. */
  ghost predicate Freed(h: Heap, was: Image, mid: Image, now: Image, b: Span, k: nat) {
    && WellFormed(h) && was.Represents(h) && b.addr in h.live && b.size == h.live[b.addr]
    && TagCleared(was, mid, b.addr, b.size) && Place(h.free, b, k)
    && now.Spliced(mid, h.free, JoinFrom(h.free, b, k), JoinUpTo(h.free, b, k), Joined(h.free, b, k))
  }

  lemma FreedFrom(h: Heap, was: Image, mid: Image, now: Image, b: Span, k: nat)
    requires WellFormed(h) && was.Represents(h) && b.addr in h.live && b.size == h.live[b.addr]
    requires TagCleared(was, mid, b.addr, b.size) && Place(h.free, b, k)
    requires now.Spliced(mid, h.free, JoinFrom(h.free, b, k), JoinUpTo(h.free, b, k), Joined(h.free, b, k))
    ensures Freed(h, was, mid, now, b, k)
  {
  }

  /** Other live blocks keep every word, header and payload. */
  lemma FreedElsewhere(h: Heap, was: Image, mid: Image, now: Image, b: Span, k: nat, a: nat, x: int)
    requires Freed(h, was, mid, now, b, k) && a in h.live && a != b.addr && a <= x < a + h.live[a]
    ensures now.At(x) == was.At(x)
  {
    LiveOutside(h, a, x);
    assert BlockOk(h.lo, h.hi, Span(b.addr, h.live[b.addr]));
    SplicedElsewhere(mid, now, h.free, b, k, x);
  }

  lemma FreedOthers(h: Heap, was: Image, mid: Image, now: Image, b: Span, k: nat)
    requires Freed(h, was, mid, now, b, k)
    ensures forall a, x | a in h.live - {b.addr} && a <= x < a + h.live[a] :: now.At(x) == was.At(x)
  {
    hide Freed;
    forall a, x | a in h.live - {b.addr} && a <= x < a + h.live[a]
      ensures now.At(x) == was.At(x)
    {
      FreedElsewhere(h, was, mid, now, b, k, a, x);
    }
  }

  lemma FreedChain(h: Heap, was: Image, mid: Image, now: Image, b: Span, k: nat)
    requires Freed(h, was, mid, now, b, k)
    ensures now.Chain(Insert(h.free, b))
  {
    HeapRoomy(h);
    assert BlockOk(h.lo, h.hi, Span(b.addr, h.live[b.addr]));
    ClearedChain(h, was, mid, b.addr);
    JoinedExtent(h.free, b, k);
    PlaceUnique(h.free, b, k);
    SplicedChain(mid, now, h.free, JoinFrom(h.free, b, k), JoinUpTo(h.free, b, k), Joined(h.free, b, k));
  }

  lemma FreedTag(h: Heap, was: Image, mid: Image, now: Image, b: Span, k: nat, a: nat)
    requires Freed(h, was, mid, now, b, k) && a in h.live && a != b.addr
    ensures now.At(a) == was.At(a) && now.At(a + 8) == was.At(a + 8)
  {
    assert BlockOk(h.lo, h.hi, Span(a, h.live[a]));
    FreedElsewhere(h, was, mid, now, b, k, a, a);
    FreedElsewhere(h, was, mid, now, b, k, a, a + 8);
  }

  lemma FreedSame(h: Heap, was: Image, mid: Image, now: Image, b: Span, k: nat)
    requires Freed(h, was, mid, now, b, k)
    ensures was.Represents(h) && b.addr in h.live && b.size == h.live[b.addr] && now.end == was.end
  {
    hide WellFormed, Image.Represents, Place;
  }

  lemma FreedTagged(h: Heap, was: Image, mid: Image, now: Image, b: Span, k: nat)
    requires Freed(h, was, mid, now, b, k)
    ensures now.Tagged(h.live - {b.addr})
  {
    hide Freed, WellFormed, Image.Chain, Image.At;
    FreedSame(h, was, mid, now, b, k);
    forall a | a in h.live && a != b.addr
      ensures now.At(a) == was.At(a) && now.At(a + 8) == was.At(a + 8)
    {
      FreedTag(h, was, mid, now, b, k, a);
    }
    assert was.Tagged(h.live);
  }

  lemma FreedEnd(h: Heap, was: Image, mid: Image, now: Image, b: Span, k: nat, x: int)
    requires Freed(h, was, mid, now, b, k) && h.hi <= x
    ensures now.At(x) == was.At(x)
  {
    assert BlockOk(h.lo, h.hi, Span(b.addr, h.live[b.addr]));
    EndOutside(h, x);
    SplicedElsewhere(mid, now, h.free, b, k, x);
  }

  lemma FreedRepresents(h: Heap, was: Image, mid: Image, now: Image, b: Span, k: nat)
    requires Freed(h, was, mid, now, b, k)
    ensures now.Represents(Release(h, b.addr + HEADER))
  {
    hide Freed, Image.Chain, Image.Tagged, Insert;
    FreedSame(h, was, mid, now, b, k);
    FreedChain(h, was, mid, now, b, k);
    FreedTagged(h, was, mid, now, b, k);
    FreedEnd(h, was, mid, now, b, k, h.hi);
    FreedEnd(h, was, mid, now, b, k, h.hi + 8);
  }

  /** A free header and a live one are at least a header apart. */
  lemma HeadersApart(h: Heap, a: nat)
    requires WellFormed(h) && a in h.live
    ensures forall i | 0 <= i < |h.free| :: a + HEADER <= h.free[i].addr || h.free[i].addr + HEADER <= a
  {
    forall i | 0 <= i < |h.free|
      ensures a + HEADER <= h.free[i].addr || h.free[i].addr + HEADER <= a
    {
      FreeApartFromLive(h, i, a);
      assert BlockOk(h.lo, h.hi, Span(a, h.live[a])) && BlockOk(h.lo, h.hi, h.free[i]);
    }
  }

  lemma JoinedInRange(h: Heap, b: Span, k: nat)
    requires WellFormed(h) && Place(h.free, b, k) && h.lo <= b.addr && b.End() <= h.hi
    ensures h.lo <= Joined(h.free, b, k).addr && Joined(h.free, b, k).End() <= h.hi
  {
    HeapRoomy(h);
  }

  lemma FreedSizes(h: Heap, b: Span, k: nat)
    requires WellFormed(h) && b.addr in h.live && b.size == h.live[b.addr] && Place(h.free, b, k)
    ensures Roomy(h.free) && HEADER <= b.size <= h.hi - h.lo
    ensures Joined(h.free, b, k).size <= h.hi - h.lo
    ensures forall i | 0 <= i < |h.free| :: b.addr + HEADER <= h.free[i].addr || h.free[i].addr + HEADER <= b.addr
  {
    assert BlockOk(h.lo, h.hi, Span(b.addr, h.live[b.addr]));
    HeapRoomy(h);
    JoinedInRange(h, b, k);
    HeadersApart(h, b.addr);
  }

  lemma FreedStaleHeader(h: Heap, was: Image, mid: Image, now: Image, b: Span, k: nat, g: nat)
    requires Freed(h, was, mid, now, b, k) && h.hi - h.lo < ALLOC_BIT
    requires g == b.addr || (StaleAt(h, g) && was.At(g + 8) < ALLOC_BIT)
    ensures now.At(g + 8) < ALLOC_BIT
  {
    hide WellFormed, Image.Represents, Image.Spliced, Place, Roomy;
    FreedSizes(h, b, k);
    assert mid.At(g + 8) < ALLOC_BIT;
    SplicedUntagged(mid, now, h.free, b, k, g);
  }

  lemma FreedUntagged(h: Heap, was: Image, mid: Image, now: Image, b: Span, k: nat, stale: set<nat>)
    requires Freed(h, was, mid, now, b, k) && h.hi - h.lo < ALLOC_BIT
    requires StaleIn(h, stale) && was.Untagged(stale)
    ensures now.Untagged(stale + {b.addr})
  {
    hide Freed, StaleAt;
    forall g | g in stale + {b.addr}
      ensures now.At(g + 8) < ALLOC_BIT
    {
      FreedStaleHeader(h, was, mid, now, b, k, g);
    }
  }

  /** A header of the list after an insertion was one before, or is that of the inserted block. */
  lemma InsertedHeader(f: seq<Span>, b: Span, k: nat, i: nat)
    requires Separated(f) && b.size > 0 && Place(f, b, k) && i < |Insert(f, b)|
    ensures Insert(f, b)[i].addr == b.addr || exists j :: 0 <= j < |f| && f[j].addr == Insert(f, b)[i].addr
  {
    PlaceUnique(f, b, k);
    var l, r := JoinFrom(f, b, k), JoinUpTo(f, b, k);
    if i != l || l < k {
      var j := if i < l then i else if i == l then l else i - l - 1 + r;
      assert f[j].addr == Insert(f, b)[i].addr;
    }
  }

  lemma StaleMeetsNoLive(h: Heap, a: nat, g: nat)
    requires WellFormed(h) && a in h.live && (StaleAt(h, g) || g == a)
    ensures forall c | c in h.live - {a} :: g + HEADER <= c || c + h.live[c] <= g
  {
    assert BlockOk(h.lo, h.hi, Span(a, h.live[a]));
  }

  lemma ReleasedParts(h: Heap, b: Span)
    requires WellFormed(h) && b.addr in h.live && b.size == h.live[b.addr]
    ensures var h' := Release(h, b.addr + HEADER);
      h'.lo == h.lo && h'.hi == h.hi && h'.free == Insert(h.free, b) && h'.live == h.live - {b.addr}
    ensures Separated(h.free) && HEADER <= b.size && Aligned(b.addr) && h.lo <= b.addr && b.addr + HEADER <= h.hi
  {
    hide Insert;
    assert BlockOk(h.lo, h.hi, Span(b.addr, h.live[b.addr]));
  }

  lemma StaleAfterInsert(h: Heap, b: Span, k: nat, g: nat)
    requires WellFormed(h) && Place(h.free, b, k) && b.addr in h.live && b.size == h.live[b.addr]
    requires StaleAt(h, g) || g == b.addr
    ensures StaleAt(Release(h, b.addr + HEADER), g)
  {
    hide WellFormed, Place, Separated, Insert, Release, Aligned;
    var h' := Release(h, b.addr + HEADER);
    ReleasedParts(h, b);
    StaleMeetsNoLive(h, b.addr, g);
    HeadersApart(h, b.addr);
    forall i | 0 <= i < |h'.free|
      ensures g == h'.free[i].addr || g + HEADER <= h'.free[i].addr || h'.free[i].addr + HEADER <= g
    {
      InsertedHeader(h.free, b, k, i);
    }
  }

  /** What was stale stays stale, and the freed block joins it. */
  lemma FreedStale(h: Heap, a: nat, stale: set<nat>)
    requires WellFormed(h) && a in h.live && StaleIn(h, stale)
    ensures StaleIn(Release(h, a + HEADER), stale + {a})
  {
    var b := Span(a, h.live[a]);
    assert BlockOk(h.lo, h.hi, b);
    LiveApart(h, a);
    PlaceOf(h.free, b);
    forall g | g in stale + {a}
      ensures StaleAt(Release(h, a + HEADER), g)
    {
      assert g != a ==> StaleAt(h, g);
      StaleAfterInsert(h, b, Position(h.free, a), g);
    }
  }

  lemma FreedAll(h: Heap, was: Image, mid: Image, now: Image, b: Span, k: nat, stale: set<nat>)
    requires Freed(h, was, mid, now, b, k) && h.hi - h.lo < ALLOC_BIT
    requires StaleIn(h, stale) && was.Untagged(stale)
    ensures var h' := Release(h, b.addr + HEADER);
      && WellFormed(h') && now.Represents(h')
      && StaleIn(h', stale + {b.addr}) && now.Untagged(stale + {b.addr})
  {
    hide WellFormed, Image.Represents, Image.Spliced, Place, Release, StaleIn, Image.Untagged;
    ReleaseKeeps(h, b.addr + HEADER);
    FreedRepresents(h, was, mid, now, b, k);
    FreedUntagged(h, was, mid, now, b, k, stale);
    FreedStale(h, b.addr, stale);
  }

  /** What a release leaves alone, whether or not there was something to release. */
  lemma ReleaseFields(h: Heap, p: nat)
    ensures Release(h, p).lo == h.lo && Release(h, p).hi == h.hi && Release(h, p).low == h.low
    ensures HEADER <= p && p - HEADER in h.live ==> Release(h, p).left == h.left + h.live[p - HEADER]
    ensures Release(h, p).live == h.live - {p - HEADER}
    ensures p < HEADER || p - HEADER !in h.live ==> Release(h, p) == h
  {
    hide Insert;
  }

  // ---- allocate ----

  function Without(f: seq<Span>, i: nat): seq<Span>
    requires i < |f|
  {
    f[..i] + f[i + 1..]
  }

  /** The predecessor of the span at `i` (or the head) leads past it; nothing else has changed. */
  ghost predicate Unlinked(was: Image, now: Image, f: seq<Span>, i: nat)
    requires i < |f|
  {
    && now.base == was.base && now.end == was.end
    && now.head == (if i == 0 then Link(f, 1, was.end) else was.head)
    && (0 < i ==> now.At(f[i - 1].addr) == Link(f, i + 1, was.end))
    && forall x :: (0 < i && x == f[i - 1].addr) || now.At(x) == was.At(x)
  }

  lemma WithoutRoomy(f: seq<Span>, i: nat)
    requires Roomy(f) && i < |f|
    ensures Roomy(Without(f, i)) && Apart(Without(f, i), f[i])
  {
    var g := Without(f, i);
    forall j | 0 <= j < |g|
      ensures g[j] == f[if j < i then j else j + 1]
    {
    }
  }

  lemma HeadersDistinct(f: seq<Span>, i: nat, j: nat)
    requires Roomy(f) && i < |f| && j < |f| && i != j
    ensures f[i].addr + HEADER <= f[j].addr || f[j].addr + HEADER <= f[i].addr
  {
    assert HEADER <= f[i].size && HEADER <= f[j].size;
    assert f[i].End() < f[j].addr || f[j].End() < f[i].addr;
  }

  lemma UnlinkedLink(was: Image, now: Image, f: seq<Span>, i: nat, j: nat)
    requires Roomy(f) && was.Chain(f) && i < |f| && Unlinked(was, now, f, i) && 0 < j < |f|
    ensures now.At(Without(f, i)[j - 1].addr) == Link(Without(f, i), j, now.end)
  {
    hide Roomy;
    var o := if j - 1 < i then j - 1 else j;
    assert was.At(f[o].addr) == Link(f, o + 1, was.end);
    if 0 < i && o != i - 1 {
      HeadersDistinct(f, o, i - 1);
    }
  }

  lemma UnlinkedSize(was: Image, now: Image, f: seq<Span>, i: nat, j: nat)
    requires Roomy(f) && was.Chain(f) && i < |f| && Unlinked(was, now, f, i) && j < |f|
    ensures now.At(f[j].addr + 8) == f[j].size
  {
    hide Roomy;
    if 0 < i && j != i - 1 {
      HeadersDistinct(f, j, i - 1);
    }
  }

  lemma UnlinkedChain(was: Image, now: Image, f: seq<Span>, i: nat)
    requires Roomy(f) && was.Chain(f) && i < |f| && Unlinked(was, now, f, i)
    ensures now.Chain(Without(f, i))
  {
    hide Roomy;
    var g := Without(f, i);
    assert was.head == Link(f, 0, was.end);
    assert now.head == Link(g, 0, now.end);
    forall j | 0 < j <= |g|
      ensures now.At(g[j - 1].addr) == Link(g, j, now.end)
    {
      UnlinkedLink(was, now, f, i, j);
    }
    forall j | 0 <= j < |g|
      ensures now.At(g[j].addr + 8) == g[j].size
    {
      UnlinkedSize(was, now, f, i, if j < i then j else j + 1);
    }
  }

  /** Writes inside a block that meets no span of the list leave the list alone. */
  lemma ChainKept(was: Image, now: Image, f: seq<Span>, b: Span)
    requires (forall i | 0 <= i < |f| :: HEADER <= f[i].size) && Apart(f, b) && was.Chain(f)
    requires now.base == was.base && now.end == was.end && now.head == was.head
    requires forall x :: b.Has(x) || now.At(x) == was.At(x)
    ensures now.Chain(f)
  {
    assert was.head == Link(f, 0, was.end);
    forall i | 0 < i <= |f|
      ensures now.At(f[i - 1].addr) == Link(f, i, now.end)
    {
      assert was.At(f[i - 1].addr) == Link(f, i, was.end);
    }
  }

  /** Putting what is left of a block back where the block was joins it to nothing. */
  lemma RemainderPlace(f: seq<Span>, i: nat, taken: nat)
    requires Separated(f) && i < |f| && 0 < taken < f[i].size
    ensures var rest := Span(f[i].addr + taken, f[i].size - taken);
      && Apart(Without(f, i), rest) && Place(Without(f, i), rest, i)
      && JoinFrom(Without(f, i), rest, i) == i && JoinUpTo(Without(f, i), rest, i) == i
      && Joined(Without(f, i), rest, i) == rest
      && Splice(Without(f, i), i, i, rest) == f[..i] + Remainder(f[i], taken) + f[i + 1..]
  {
    var g := Without(f, i);
    forall j | 0 <= j < |g|
      ensures g[j] == f[if j < i then j else j + 1]
    {
    }
  }

  /** Any place that fits is the one place. */
  lemma OnlyPlace(f: seq<Span>, b: Span, k: nat, j: nat)
    requires Separated(f) && b.size > 0 && Place(f, b, k) && Place(f, b, j)
    ensures k == j
  {
    PlaceUnique(f, b, k);
    PlaceUnique(f, b, j);
  }

  /** `now` differs from `was` only inside free blocks. */
  ghost predicate OnlyFree(f: seq<Span>, was: Image, now: Image) {
    forall x :: Covered(f, x) || now.At(x) == was.At(x)
  }

  lemma SpliceIsFree(f: seq<Span>, i: nat, taken: nat, was: Image, now: Image)
    requires Roomy(f) && i < |f| && 0 < taken && taken + HEADER <= f[i].size
    requires now.Spliced(was, Without(f, i), i, i, Span(f[i].addr + taken, f[i].size - taken))
    ensures OnlyFree(f, was, now)
  {
    forall x | now.At(x) != was.At(x)
      ensures Covered(f, x)
    {
      assert f[i].Has(x) || (0 < i && x == f[i - 1].addr && f[i - 1].Has(x));
    }
  }

  lemma UnlinkIsFree(f: seq<Span>, i: nat, was: Image, now: Image)
    requires Roomy(f) && i < |f| && Unlinked(was, now, f, i)
    ensures OnlyFree(f, was, now)
  {
    forall x | now.At(x) != was.At(x)
      ensures Covered(f, x)
    {
      assert f[i - 1].Has(x);
    }
  }

  lemma BlockIsFree(f: seq<Span>, i: nat, was: Image, now: Image)
    requires i < |f| && forall x :: f[i].Has(x) || now.At(x) == was.At(x)
    ensures OnlyFree(f, was, now)
  {
  }

  lemma LiveSize(h: Heap, a: nat)
    requires WellFormed(h) && a in h.live
    ensures HEADER < h.live[a]
  {
  }

  lemma EndNotFree(h: Heap, x: int)
    requires WellFormed(h) && h.hi <= x
    ensures !Covered(h.free, x)
  {
  }

  lemma LiveNotCovered(h: Heap, a: nat, x: int)
    requires WellFormed(h) && a in h.live && a <= x < a + h.live[a]
    ensures !Covered(h.free, x)
  {
    assert BlockOk(h.lo, h.hi, Span(a, h.live[a]));
    assert InUse(h.live, x);
  }

  /** Live headers and the end marker are outside the free blocks. */
  lemma OnlyFreeKeeps(h: Heap, was: Image, now: Image)
    requires WellFormed(h) && was.Represents(h) && OnlyFree(h.free, was, now)
    ensures now.Tagged(h.live) && now.At(h.hi) == NULL && now.At(h.hi + 8) == 0 && was.end == h.hi
  {
    hide WellFormed, Image.Chain, Covered;
    forall a | a in h.live
      ensures now.At(a) == was.At(a) && now.At(a + 8) == was.At(a + 8)
    {
      LiveSize(h, a);
      LiveNotCovered(h, a, a);
      LiveNotCovered(h, a, a + 8);
    }
    EndNotFree(h, h.hi);
    EndNotFree(h, h.hi + 8);
  }

  /** After the search: `i` is the first span that fits, or the end of the list. */
  ghost predicate Fits(f: seq<Span>, need: nat, i: nat) {
    && i <= |f| && (forall j | 0 <= j < i :: f[j].size < need)
    && (i < |f| ==> need <= f[i].size)
  }

  lemma FirstFitUnique(f: seq<Span>, need: nat, i: nat)
    requires Fits(f, need, i)
    ensures FirstFit(f, need) == i
  {
  }

  /** `was` after writes inside the block `b` only. */
  ghost predicate Inside(b: Span, was: Image, now: Image) {
    && now.base == was.base && now.end == was.end && now.head == was.head
    && forall x :: b.Has(x) || now.At(x) == was.At(x)
  }

  /** The sizes of the two parts were written into the block `b`. */
  ghost predicate Cuts(b: Span, need: nat, was: Image, mid: Image) {
    && Inside(b, was, mid) && mid.At(b.addr + 8) == need && mid.At(b.addr + need + 8) == b.size - need
    && forall x :: x == b.addr + 8 || x == b.addr + need + 8 || mid.At(x) == was.At(x)
  }

  /** The block at `i`, off the list, was cut to `need` bytes and the rest put on the list at place `k`. */
  ghost predicate SplitAt(f: seq<Span>, i: nat, need: nat, was: Image, mid: Image, now: Image, k: nat) {
    && i < |f| && HEADER <= need && need + HEADER <= f[i].size && k < |f|
    && was.Chain(Without(f, i)) && Cuts(f[i], need, was, mid)
    && var g, rest := Without(f, i), Span(f[i].addr + need, f[i].size - need);
    && Place(g, rest, k) && now.Spliced(mid, g, JoinFrom(g, rest, k), JoinUpTo(g, rest, k), Joined(g, rest, k))
  }

  lemma SplitFrom(f: seq<Span>, i: nat, need: nat, was: Image, mid: Image, now: Image, k: nat)
    requires i < |f| && HEADER <= need && need + HEADER <= f[i].size
    requires was.Chain(Without(f, i)) && Cuts(f[i], need, was, mid)
    requires var g, rest := Without(f, i), Span(f[i].addr + need, f[i].size - need);
      && Place(g, rest, k) && now.Spliced(mid, g, JoinFrom(g, rest, k), JoinUpTo(g, rest, k), Joined(g, rest, k))
    ensures SplitAt(f, i, need, was, mid, now, k)
  {
  }

  lemma SplitInPlace(f: seq<Span>, i: nat, need: nat, was: Image, mid: Image, now: Image, k: nat)
    requires Roomy(f) && SplitAt(f, i, need, was, mid, now, k)
    ensures now.Spliced(mid, Without(f, i), i, i, Span(f[i].addr + need, f[i].size - need))
  {
    var g, rest := Without(f, i), Span(f[i].addr + need, f[i].size - need);
    WithoutRoomy(f, i);
    RemainderPlace(f, i, need);
    OnlyPlace(g, rest, k, i);
  }

  lemma SplitMidChain(f: seq<Span>, i: nat, need: nat, was: Image, mid: Image, now: Image, k: nat)
    requires Roomy(f) && SplitAt(f, i, need, was, mid, now, k)
    ensures mid.Chain(Without(f, i))
  {
    hide Image.Spliced, Without, Place;
    WithoutRoomy(f, i);
    ChainKept(was, mid, Without(f, i), f[i]);
  }

  lemma SplitChain(f: seq<Span>, i: nat, need: nat, was: Image, mid: Image, now: Image, k: nat)
    requires Roomy(f) && SplitAt(f, i, need, was, mid, now, k)
    ensures now.Chain(f[..i] + Remainder(f[i], need) + f[i + 1..])
  {
    hide Image.Spliced, Image.Chain, Place, Splice, Remainder, Inside;
    var g, rest := Without(f, i), Span(f[i].addr + need, f[i].size - need);
    SplitInPlace(f, i, need, was, mid, now, k);
    SplitMidChain(f, i, need, was, mid, now, k);
    WithoutRoomy(f, i);
    RemainderPlace(f, i, need);
    JoinedExtent(g, rest, i);
    SplicedChain(mid, now, g, i, i, rest);
  }

  lemma SplitElsewhere(f: seq<Span>, i: nat, need: nat, was: Image, mid: Image, now: Image, k: nat)
    requires Roomy(f) && SplitAt(f, i, need, was, mid, now, k)
    ensures now.At(f[i].addr + 8) == need && OnlyFree(f, was, now)
  {
    SplitInPlace(f, i, need, was, mid, now, k);
    SpliceIsFree(f, i, need, mid, now);
    BlockIsFree(f, i, was, mid);
    if 0 < i {
      HeadersDistinct(f, i - 1, i);
    }
  }

  // ---- stale headers an allocation leaves alone ----

  /** The header at `g` meets no header of `f` but by being it. */
  ghost predicate OnlyMeets(f: seq<Span>, g: int) {
    forall i | 0 <= i < |f| :: g == f[i].addr || g + HEADER <= f[i].addr || f[i].addr + HEADER <= g
  }

  /** Taking `taken` bytes of the block at `i` reuses none of these headers. */
  ghost predicate Kept(f: seq<Span>, i: nat, taken: nat, kept: set<nat>)
    requires i < |f| && taken <= f[i].size
  {
    forall g | g in kept :: OnlyMeets(f, g) && OnlyMeets(Remainder(f[i], taken), g)
      && (g + HEADER <= f[i].addr || f[i].addr + taken <= g)
  }

  lemma KeptOfStale(h: Heap, n: nat, stale: set<nat>)
    requires 0 < n < ALLOC_BIT && FirstFit(h.free, Need(n)) < |h.free| && StaleIn(h, stale)
    ensures var i, kept := FirstFit(h.free, Need(n)), StillStale(Allocate(h, n).0, stale);
      Kept(h.free, i, Taken(h.free[i], Need(n)), kept) && StaleIn(Allocate(h, n).0, kept) && kept <= stale
  {
    hide Need, Taken;
    var i, h' := FirstFit(h.free, Need(n)), Allocate(h, n).0;
    var taken := Taken(h.free[i], Need(n));
    forall g | g in StillStale(h', stale)
      ensures OnlyMeets(h.free, g) && OnlyMeets(Remainder(h.free[i], taken), g)
      ensures g + HEADER <= h.free[i].addr || h.free[i].addr + taken <= g
    {
      assert StaleAt(h, g) && StaleAt(h', g);
      assert h.free[i].addr in h'.live && h'.live[h.free[i].addr] == taken;
      if taken < h.free[i].size {
        assert h'.free[i] == Remainder(h.free[i], taken)[0];
      }
    }
  }

  lemma UnlinkUntagged(f: seq<Span>, i: nat, taken: nat, was: Image, now: Image, kept: set<nat>)
    requires i < |f| && taken <= f[i].size && Kept(f, i, taken, kept)
    requires Unlinked(was, now, f, i) && was.Untagged(kept)
    ensures now.Untagged(kept)
  {
    forall g | g in kept
      ensures now.At(g + 8) == was.At(g + 8)
    {
      assert OnlyMeets(f, g);
    }
  }

  /** The words a split writes. */
  lemma SplitWords(f: seq<Span>, i: nat, need: nat, was: Image, mid: Image, now: Image, k: nat, x: int)
    requires Roomy(f) && SplitAt(f, i, need, was, mid, now, k)
    ensures now.At(f[i].addr + need + 8) == f[i].size - need
    ensures || x in {f[i].addr + 8, f[i].addr + need, f[i].addr + need + 8} || (0 < i && x == f[i - 1].addr)
            || now.At(x) == was.At(x)
  {
    hide Image.Chain, Roomy, Place;
    SplitInPlace(f, i, need, was, mid, now, k);
  }

  lemma KeptApart(f: seq<Span>, i: nat, need: nat, kept: set<nat>, g: nat)
    requires i < |f| && HEADER <= need < f[i].size && Kept(f, i, need, kept) && g in kept
    ensures g + 8 != f[i].addr + 8 && g + 8 != f[i].addr + need && (0 < i ==> g + 8 != f[i - 1].addr)
  {
    assert OnlyMeets(f, g) && OnlyMeets(Remainder(f[i], need), g);
    assert Remainder(f[i], need)[0].addr == f[i].addr + need;
  }

  lemma SplitSizes(f: seq<Span>, i: nat, need: nat, was: Image, mid: Image, now: Image, k: nat)
    requires SplitAt(f, i, need, was, mid, now, k)
    ensures i < |f| && HEADER <= need < f[i].size
  {
  }

  lemma SplitUntaggedAt(f: seq<Span>, i: nat, need: nat, was: Image, mid: Image, now: Image, k: nat,
                        kept: set<nat>, g: nat)
    requires Roomy(f) && SplitAt(f, i, need, was, mid, now, k) && f[i].size < ALLOC_BIT
    requires Kept(f, i, need, kept) && g in kept && was.At(g + 8) < ALLOC_BIT
    ensures now.At(g + 8) < ALLOC_BIT
  {
    hide Roomy, SplitAt, Kept, Image.At;
    SplitSizes(f, i, need, was, mid, now, k);
    SplitWords(f, i, need, was, mid, now, k, g + 8);
    KeptApart(f, i, need, kept, g);
  }

  lemma SplitUntagged(f: seq<Span>, i: nat, need: nat, was: Image, mid: Image, now: Image, k: nat, kept: set<nat>)
    requires Roomy(f) && SplitAt(f, i, need, was, mid, now, k) && f[i].size < ALLOC_BIT
    requires Kept(f, i, need, kept) && was.Untagged(kept)
    ensures now.Untagged(kept)
  {
    hide Roomy, SplitAt, Kept;
    forall g | g in kept
      ensures now.At(g + 8) < ALLOC_BIT
    {
      SplitUntaggedAt(f, i, need, was, mid, now, k, kept, g);
    }
  }

  lemma TagUntagged(f: seq<Span>, i: nat, taken: nat, was: Image, now: Image, kept: set<nat>)
    requires i < |f| && HEADER <= taken <= f[i].size && Kept(f, i, taken, kept)
    requires Inside(Span(f[i].addr, HEADER), was, now) && was.Untagged(kept)
    ensures now.Untagged(kept)
  {
    forall g | g in kept
      ensures now.At(g + 8) == was.At(g + 8)
    {
    }
  }

  /** The first `taken` bytes of the block at `i` were taken, its header tagged; only free memory changed. */
  ghost predicate Granted(f: seq<Span>, i: nat, taken: nat, was: Image, cut: Image, now: Image) {
    && i < |f| && HEADER <= taken <= f[i].size && now.end == was.end
    && cut.Chain(f[..i] + Remainder(f[i], taken) + f[i + 1..]) && OnlyFree(f, was, cut)
    && Inside(Span(f[i].addr, HEADER), cut, now)
    && now.At(f[i].addr) == NULL && now.At(f[i].addr + 8) == taken + ALLOC_BIT
  }

  lemma CutRoomy(f: seq<Span>, i: nat, taken: nat)
    requires Roomy(f) && i < |f| && HEADER <= taken <= f[i].size && (taken == f[i].size || taken + HEADER <= f[i].size)
    ensures var g := f[..i] + Remainder(f[i], taken) + f[i + 1..];
      && (forall j | 0 <= j < |g| :: HEADER <= g[j].size) && Apart(g, Span(f[i].addr, HEADER))
  {
    var r := Remainder(f[i], taken);
    var g := f[..i] + r + f[i + 1..];
    forall j | 0 <= j < |g|
      ensures g[j] == if j < i then f[j] else if j < i + |r| then r[0] else f[j + 1 - |r|]
    {
    }
  }

  lemma GrantedChain(f: seq<Span>, i: nat, taken: nat, was: Image, cut: Image, now: Image)
    requires Roomy(f) && Granted(f, i, taken, was, cut, now) && (taken == f[i].size || taken + HEADER <= f[i].size)
    ensures now.Chain(f[..i] + Remainder(f[i], taken) + f[i + 1..])
  {
    hide Image.Chain, Roomy, Apart;
    CutRoomy(f, i, taken);
    ChainKept(cut, now, f[..i] + Remainder(f[i], taken) + f[i + 1..], Span(f[i].addr, HEADER));
  }

  lemma GrantedOnlyFree(f: seq<Span>, i: nat, taken: nat, was: Image, cut: Image, now: Image)
    requires Granted(f, i, taken, was, cut, now)
    ensures OnlyFree(f, was, now) && now.end == was.end
    ensures now.At(f[i].addr) == NULL && now.At(f[i].addr + 8) == taken + ALLOC_BIT
  {
    forall x | now.At(x) != was.At(x)
      ensures Covered(f, x)
    {
      assert now.At(x) != cut.At(x) ==> f[i].Has(x);
    }
  }

  lemma GrantedTag(h: Heap, a: nat, taken: nat, h': Heap, now: Image)
    requires h'.live == h.live[a := taken] && h'.hi == h.hi && now.end == h.hi
    requires now.Chain(h'.free) && now.Tagged(h.live) && now.At(h.hi) == NULL && now.At(h.hi + 8) == 0
    requires now.At(a) == NULL && now.At(a + 8) == taken + ALLOC_BIT
    ensures now.Represents(h')
  {
    hide Image.Chain;
  }

  /** What a successful allocation makes of each part of the heap. */
  lemma AllocatedFields(h: Heap, n: nat)
    requires 0 < n < ALLOC_BIT && FirstFit(h.free, Need(n)) < |h.free|
    ensures var i, h' := FirstFit(h.free, Need(n)), Allocate(h, n).0;
      var taken := Taken(h.free[i], Need(n));
      && h'.lo == h.lo && h'.hi == h.hi && h'.live == h.live[h.free[i].addr := taken]
      && h'.free == h.free[..i] + Remainder(h.free[i], taken) + h.free[i + 1..]
      && h'.left == h.left - taken && h'.low == (if h.left - taken < h.low then h.left - taken else h.low)
      && Allocate(h, n).1 == h.free[i].addr + HEADER
  {
  }

  lemma GrantedRepresents(h: Heap, n: nat, was: Image, cut: Image, now: Image)
    requires WellFormed(h) && was.Represents(h) && 0 < n < ALLOC_BIT
    requires var i := FirstFit(h.free, Need(n));
      i < |h.free| && Granted(h.free, i, Taken(h.free[i], Need(n)), was, cut, now)
    ensures now.Represents(Allocate(h, n).0)
    ensures forall a, x | a in h.live && a <= x < a + h.live[a] :: now.At(x) == was.At(x)
  {
    hide WellFormed, Image.Represents, Image.Chain, Granted, Roomy, Covered;
    var i := FirstFit(h.free, Need(n));
    var taken := Taken(h.free[i], Need(n));
    HeapRoomy(h);
    GrantedChain(h.free, i, taken, was, cut, now);
    GrantedOnlyFree(h.free, i, taken, was, cut, now);
    OnlyFreeKeeps(h, was, now);
    forall a, x | a in h.live && a <= x < a + h.live[a]
      ensures now.At(x) == was.At(x)
    {
      LiveNotCovered(h, a, x);
    }
    AllocatedFields(h, n);
    GrantedTag(h, h.free[i].addr, taken, Allocate(h, n).0, now);
  }

  lemma NothingAllocated(h: Heap, n: nat)
    requires n == 0 || ALLOC_BIT <= n || FirstFit(h.free, Need(n)) == |h.free| || h.left < Need(n)
    requires WellFormed(h)
    ensures Allocate(h, n) == (h, 0)
  {
    if FirstFit(h.free, Need(n)) < |h.free| {
      TotalAtLeast(h.free, FirstFit(h.free, Need(n)));
    }
  }

  // ---- the application ----

  /** A write into the payload of the live block at `a` disturbs no header, free, live or stale. */
  ghost predicate Written(h: Heap, was: Image, now: Image, a: nat, x: nat) {
    && now.base == was.base && now.head == was.head && now.end == was.end
    && a in h.live && a + HEADER <= x && x + 8 <= a + h.live[a]
    && forall y :: y == x || now.At(y) == was.At(y)
  }

  lemma WrittenTagged(h: Heap, was: Image, now: Image, a: nat, x: nat)
    requires LiveOk(h) && was.Tagged(h.live) && Written(h, was, now, a, x)
    ensures now.Tagged(h.live)
  {
    forall c | c in h.live
      ensures now.At(c) == was.At(c) && now.At(c + 8) == was.At(c + 8)
    {
      assert HEADER < h.live[c];
    }
  }

  lemma WrittenChain(f: seq<Span>, was: Image, now: Image, b: Span, x: nat)
    requires Roomy(f) && Apart(f, b) && b.Has(x) && was.Chain(f)
    requires now.base == was.base && now.head == was.head && now.end == was.end
    requires forall y :: y == x || now.At(y) == was.At(y)
    ensures now.Chain(f)
  {
    hide Image.Chain;
    ChainKept(was, now, f, b);
  }

  lemma WrittenRepresents(h: Heap, was: Image, now: Image, a: nat, x: nat)
    requires WellFormed(h) && was.Represents(h) && Written(h, was, now, a, x)
    ensures now.Represents(h)
  {
    hide Image.Chain, Image.Tagged, Separated, Roomy, Tiled, Counted;
    assert BlockOk(h.lo, h.hi, Span(a, h.live[a]));
    WrittenTagged(h, was, now, a, x);
    LiveApart(h, a);
    HeapRoomy(h);
    WrittenChain(h.free, was, now, Span(a, h.live[a]), x);
  }

  lemma WrittenUntagged(h: Heap, was: Image, now: Image, a: nat, x: nat, stale: set<nat>)
    requires Written(h, was, now, a, x) && StaleIn(h, stale) && was.Untagged(stale)
    ensures now.Untagged(stale)
  {
    forall g | g in stale
      ensures now.At(g + 8) == was.At(g + 8)
    {
      assert StaleAt(h, g);
    }
  }
}
