/** The buffer as a value: headers, payloads and end marker share one sequence of words. */
module MemoryImage {
  import opened Spans
  import opened HeapModel

  const WORD_LIMIT: nat := 0x1_0000_0000_0000_0000

  /** A 64-bit machine word: a size or an address. */
  type Word = x: nat | x < WORD_LIMIT

  const NULL: Word := 0

  /** A header starts here: its words are eight-byte words of the buffer and share no byte with another's. */
  predicate Aligned(a: int) {
    a % ALIGN == 0
  }

  /** The address of the span at index `i`, or the end marker past the last one. */
  function Link(f: seq<Span>, i: nat, end: nat): nat {
    if i < |f| then f[i].addr else end
  }

  /** The address of the list head, which lies outside the buffer. It is compared for equality only. */
  const START: int := -1

  /** `words[a - base]` is the eight-byte word at the aligned address `a`. A header's successor is the
      word at its address and its size the word eight bytes on. `head` is the first free block and
      `end` the end marker. */
  datatype Image = Image(base: nat, head: nat, end: nat, words: seq<Word>) {

    function At(a: int): Word {
      if 0 <= a - base < |words| then words[a - base] else 0
    }

    /** The free list runs through the headers of `f`, in order, to the end marker. */
    ghost predicate Chain(f: seq<Span>) {
      && head == Link(f, 0, end)
      && (forall i {:trigger Link(f, i, end)} | 0 < i <= |f| :: At(f[i - 1].addr) == Link(f, i, end))
      && (forall i | 0 <= i < |f| :: At(f[i].addr + 8) == f[i].size)
    }

    /** No header in `stale` carries the tag. */
    ghost predicate Untagged(stale: set<nat>) {
      forall g | g in stale :: At(g + 8) < ALLOC_BIT
    }

    /** The words of `h`: its free list, its tagged live headers and the end marker. */
    ghost predicate Represents(h: Heap) {
      && end == h.hi && Chain(h.free) && Tagged(h.live) && At(end) == NULL && At(end + 8) == 0
    }

    /** Live headers carry the tag and no successor. */
    ghost predicate Tagged(live: map<nat, nat>) {
      forall a | a in live :: At(a) == NULL && At(a + 8) == live[a] + ALLOC_BIT
    }

    function NextOf(it: int): int { if it == START then head else At(it) }

    /** What joining `block` at `it` relies on: headers and blocks follow one another below `limit`. */
    ghost predicate JoinReady(it: int, block: nat, limit: nat) {
      && (it != START ==> Aligned(it) && base <= it && it + HEADER <= it + At(it + 8) <= block)
      && LinkReady(it, block, limit)
    }

    ghost predicate LinkReady(it: int, block: int, limit: nat) {
      && Aligned(block) && Aligned(NextOf(it))
      && base <= block && block + HEADER <= block + At(block + 8) <= NextOf(it)
      && NextOf(it) + HEADER <= limit
      && (NextOf(it) != end ==> NextOf(it) + At(NextOf(it) + 8) <= limit)
    }

    /** `it` was grown by the block at `inserted` when that starts where `it` ends; `block` is the result. */
    ghost predicate GrownAt(was: Image, it: int, inserted: nat, block: int) {
      && base == was.base && end == was.end && head == was.head
      && block == (if it != START && it + was.At(it + 8) == inserted then it else inserted)
      && At(block + 8) == (if block == it then was.At(it + 8) else 0) + was.At(inserted + 8)
      && forall a :: a == block + 8 || At(a) == was.At(a)
    }

    /** `block` was grown by the successor of `it` when that starts where `block` ends. */
    ghost predicate GrownUpAt(was: Image, it: int, block: int) {
      var next := was.NextOf(it);
      var right := block + was.At(block + 8) == next && next != end;
      && base == was.base && end == was.end && head == was.head
      && At(block) == (if right then was.At(next) else next)
      && At(block + 8) == was.At(block + 8) + (if right then was.At(next + 8) else 0)
      && forall a :: a == block || a == block + 8 || At(a) == was.At(a)
    }

    /** `it` leads to `block`, unless it is that block. */
    ghost predicate LinkedAt(was: Image, it: int, block: int) {
      && base == was.base && end == was.end
      && head == (if it == START && block != START then block else was.head)
      && (it != START && it != block ==> At(it) == block)
      && forall a :: (it != START && it != block && a == it) || At(a) == was.At(a)
    }

    /** `block` was joined to `it`, to the successor of `it`, to both or to neither, as they touched. */
    ghost predicate JoinedAt(was: Image, it: int, block: nat) {
      var next := was.NextOf(it);
      var size := was.At(block + 8);
      var left := it != START && it + was.At(it + 8) == block;
      var right := block + size == next && next != end;
      var start := if left then it else block;
      && base == was.base && end == was.end
      && At(start) == (if right then was.At(next) else next)
      && At(start + 8) == (if left then was.At(it + 8) else 0) + size + (if right then was.At(next + 8) else 0)
      && head == (if it == START then block else was.head)
      && (it != START && !left ==> At(it) == block)
      && (forall a :: a == start || a == start + 8 || (it != START && a == it) || At(a) == was.At(a))
    }

    /** `m` stands for the stretch `f[l..r]` of the list of `was`: its header is in place, its predecessor
        (or the head) leads to it, and no other word has changed. */
    ghost predicate Spliced(was: Image, f: seq<Span>, l: nat, r: nat, m: Span) {
      && l <= r <= |f| && base == was.base && end == was.end
      && At(m.addr) == Link(f, r, end) && At(m.addr + 8) == m.size
      && head == (if l == 0 then m.addr else was.head)
      && (0 < l ==> At(f[l - 1].addr) == m.addr)
      && (forall a :: a == m.addr || a == m.addr + 8 || (0 < l && a == f[l - 1].addr) || At(a) == was.At(a))
    }
  }

  lemma GrownReady(was: Image, mid: Image, it: int, inserted: nat, block: int, limit: nat)
    requires was.JoinReady(it, inserted, limit) && mid.GrownAt(was, it, inserted, block)
    ensures mid.LinkReady(it, block, limit)
    ensures it == START || it == block || (was.base <= it && it + HEADER <= block)
    ensures it == START || (Aligned(it) && was.base <= it < limit)
  {
    hide Aligned;
  }

  lemma GrownLinked(was: Image, mid: Image, grown: Image, now: Image, it: int, inserted: nat, block: int, limit: nat)
    requires was.JoinReady(it, inserted, limit)
    requires mid.GrownAt(was, it, inserted, block) && grown.GrownUpAt(mid, it, block) && now.LinkedAt(grown, it, block)
    ensures now.JoinedAt(was, it, inserted)
  {
  }

  ghost predicate Roomy(f: seq<Span>) {
    Separated(f) && forall i | 0 <= i < |f| :: HEADER <= f[i].size
  }

  /** A header outside the stretch keeps its size, and its successor unless it leads to `m`. */
  lemma Undisturbed(was: Image, now: Image, f: seq<Span>, l: nat, r: nat, m: Span, j: nat)
    requires Roomy(f) && Clear(f, l, r, m) && HEADER <= m.size && now.Spliced(was, f, l, r, m)
    requires j < |f| && !(l <= j < r)
    ensures now.At(f[j].addr + 8) == was.At(f[j].addr + 8)
    ensures j + 1 != l ==> now.At(f[j].addr) == was.At(f[j].addr)
  {
    assert HEADER <= f[j].size;
    assert f[j].End() < m.addr || m.End() < f[j].addr;
    if 0 < l && j != l - 1 {
      assert HEADER <= f[l - 1].size;
      assert f[j].End() < f[l - 1].addr || f[l - 1].End() < f[j].addr;
    }
  }

  lemma SplicedSizes(was: Image, now: Image, f: seq<Span>, l: nat, r: nat, m: Span)
    requires Roomy(f) && Clear(f, l, r, m) && HEADER <= m.size && now.Spliced(was, f, l, r, m) && was.Chain(f)
    ensures forall i | 0 <= i < |Splice(f, l, r, m)| :: now.At(Splice(f, l, r, m)[i].addr + 8) == Splice(f, l, r, m)[i].size
  {
    hide Roomy;
    var g := Splice(f, l, r, m);
    forall i | 0 <= i < |g|
      ensures now.At(g[i].addr + 8) == g[i].size
    {
      if i != l {
        Undisturbed(was, now, f, l, r, m, if i < l then i else i - l - 1 + r);
      }
    }
  }

  lemma SplicedLink(was: Image, now: Image, f: seq<Span>, l: nat, r: nat, m: Span, i: nat)
    requires Roomy(f) && Clear(f, l, r, m) && HEADER <= m.size && now.Spliced(was, f, l, r, m) && was.Chain(f)
    requires 0 < i <= |Splice(f, l, r, m)|
    ensures now.At(Splice(f, l, r, m)[i - 1].addr) == Link(Splice(f, l, r, m), i, now.end)
  {
    hide Roomy;
    if i - 1 != l {
      var j := if i - 1 < l then i - 1 else i - 1 - l - 1 + r;
      Undisturbed(was, now, f, l, r, m, j);
      assert was.At(f[j].addr) == Link(f, j + 1, was.end);
    }
  }

  lemma SplicedChain(was: Image, now: Image, f: seq<Span>, l: nat, r: nat, m: Span)
    requires Roomy(f) && Clear(f, l, r, m) && HEADER <= m.size && now.Spliced(was, f, l, r, m) && was.Chain(f)
    ensures now.Chain(Splice(f, l, r, m))
  {
    var g := Splice(f, l, r, m);
    SplicedSizes(was, now, f, l, r, m);
    assert was.head == Link(f, 0, was.end);
    forall i | 0 < i <= |g|
      ensures now.At(g[i - 1].addr) == Link(g, i, now.end)
    {
      SplicedLink(was, now, f, l, r, m, i);
    }
  }

  /** The span before place `k`, or the head of the list. */
  function Before(f: seq<Span>, k: nat): int
    requires k <= |f|
  {
    if k == 0 then START else f[k - 1].addr
  }

  lemma ChainReady(mem: Image, f: seq<Span>, b: Span, k: nat, limit: nat)
    requires Roomy(f) && Place(f, b, k) && HEADER <= b.size && mem.Chain(f)
    requires mem.base <= b.addr && b.End() <= mem.end && mem.end + HEADER <= limit && b.size == mem.At(b.addr + 8)
    requires forall i | 0 <= i < |f| :: mem.base <= f[i].addr && f[i].End() <= mem.end
    requires Aligned(b.addr) && Aligned(mem.end) && forall i | 0 <= i < |f| :: Aligned(f[i].addr)
    ensures mem.JoinReady(Before(f, k), b.addr, limit)
  {
    hide Aligned;
    assert mem.NextOf(Before(f, k)) == Link(f, k, mem.end);
  }

  /** The stretch `f[l..r]` that `b` joins at place `k`, and what it becomes, as the stored words tell it. */
  ghost predicate Reads(was: Image, f: seq<Span>, b: Span, k: nat, l: nat, r: nat, m: Span) {
    && k <= |f| && b.size == was.At(b.addr + 8)
    && var it, next := Before(f, k), was.NextOf(Before(f, k));
    && var left := it != START && it + was.At(it + 8) == b.addr;
    && var right := b.addr + b.size == next && next != was.end;
    && l == (if left then k - 1 else k) && r == (if right then k + 1 else k) && r <= |f|
    && Link(f, r, was.end) == (if right then was.At(next) else next)
    && m.addr == (if left then it else b.addr)
    && m.size == (if left then was.At(it + 8) else 0) + b.size + (if right then was.At(next + 8) else 0)
    && (left ==> was.NextOf(Before(f, l)) == it)
    && (left && 0 < l ==> f[l - 1].addr != it && f[l - 1].addr != it + 8)
  }

  /** What the stored words tell about place `k`. */
  lemma PlaceReads(was: Image, f: seq<Span>, k: nat)
    requires Roomy(f) && k <= |f| && was.Chain(f)
    requires forall i | 0 <= i < |f| :: f[i].End() <= was.end
    ensures was.NextOf(Before(f, k)) == Link(f, k, was.end)
    ensures 0 < k ==> was.At(f[k - 1].addr + 8) == f[k - 1].size && was.NextOf(Before(f, k - 1)) == f[k - 1].addr
    ensures k < |f| ==> was.At(f[k].addr) == Link(f, k + 1, was.end) && was.At(f[k].addr + 8) == f[k].size
    ensures k < |f| ==> f[k].addr != was.end
    ensures 1 < k ==> f[k - 2].addr + HEADER < f[k - 1].addr
  {
    assert was.NextOf(Before(f, k)) == Link(f, k, was.end);
    assert k < |f| ==> was.At(f[k].addr) == Link(f, k + 1, was.end);
    assert 0 < k ==> was.NextOf(Before(f, k - 1)) == Link(f, k - 1, was.end);
    assert 1 < k ==> f[k - 2].End() < f[k - 1].addr;
    assert k < |f| ==> HEADER <= f[k].size && f[k].End() <= was.end;
  }

  lemma ChainReads(was: Image, f: seq<Span>, b: Span, k: nat)
    requires Roomy(f) && k <= |f| && Place(f, b, k) && was.Chain(f) && b.size == was.At(b.addr + 8)
    requires forall i | 0 <= i < |f| :: f[i].End() <= was.end
    ensures Reads(was, f, b, k, JoinFrom(f, b, k), JoinUpTo(f, b, k), Joined(f, b, k))
  {
    hide Roomy, Place, Image.Chain;
    PlaceReads(was, f, k);
  }

  lemma ReadsSpliced(was: Image, now: Image, f: seq<Span>, b: Span, k: nat, l: nat, r: nat, m: Span)
    requires Reads(was, f, b, k, l, r, m) && now.JoinedAt(was, Before(f, k), b.addr)
    ensures now.Spliced(was, f, l, r, m)
  {
  }

  /** Seen from its place in the list, a joined block stands for the stretch it was joined to. */
  lemma JoinSplices(was: Image, now: Image, f: seq<Span>, b: Span, k: nat)
    requires Roomy(f) && Place(f, b, k) && HEADER <= b.size && was.Chain(f) && b.size == was.At(b.addr + 8)
    requires forall i | 0 <= i < |f| :: f[i].End() <= was.end
    requires now.JoinedAt(was, Before(f, k), b.addr)
    ensures now.Spliced(was, f, JoinFrom(f, b, k), JoinUpTo(f, b, k), Joined(f, b, k))
  {
    hide Reads, Image.Spliced, Image.JoinedAt, Roomy, Image.Chain, Joined, JoinFrom, JoinUpTo;
    ChainReads(was, f, b, k);
    ReadsSpliced(was, now, f, b, k, JoinFrom(f, b, k), JoinUpTo(f, b, k), Joined(f, b, k));
  }
}
