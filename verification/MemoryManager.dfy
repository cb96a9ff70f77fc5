/** The memory manager itself: block headers kept inside the buffer it manages, updated in place. */
module MemoryManager {
  import opened Spans
  import opened HeapModel
  import opened MemoryImage
  import opened MemorySteps

  /** `x & bit != 0` for a `bit` that is zero or a power of two. */
  predicate HasBit(x: Word, bit: Word) {
    bit != 0 && x / bit % 2 == 1
  }

  /** `x & ~bit` */
  function ClearBit(x: Word, bit: Word): Word {
    if HasBit(x, bit) then x - bit else x
  }

  /** `x | bit` */
  function SetBit(x: Word, bit: Word): int {
    if HasBit(x, bit) then x else x + bit
  }

  /** With the top bit as the tag: it is seen, taken off and put on as the sum of tag and size. */
  lemma TopBit(x: Word)
    ensures HasBit(x, ALLOC_BIT) <==> ALLOC_BIT <= x
    ensures ALLOC_BIT <= x ==> ClearBit(x, ALLOC_BIT) == x - ALLOC_BIT
    ensures x < ALLOC_BIT ==> SetBit(x, ALLOC_BIT) == x + ALLOC_BIT
  {
  }

  /** `x & ~(ALIGN - 1)` */
  function RoundDown(x: int): int {
    x - x % ALIGN
  }

  lemma RoundsDown(x: int)
    ensures x - (ALIGN - 1) <= RoundDown(x) <= x && RoundDown(x) % ALIGN == 0
  {
  }

  function HeapStart(buff: nat): nat {
    if buff % ALIGN != 0 then RoundDown(buff + (ALIGN - 1)) else buff
  }

  /** Where the end marker goes: below the top of the buffer by its own size, then aligned. */
  function HeapEnd(buff: nat, size: nat): int {
    RoundDown(HeapStart(buff) + (size - (HeapStart(buff) - buff)) - HEADER)
  }

  /** A buffer that does not wrap the address space and holds two headers after alignment. */
  predicate Usable(buff: nat, size: nat) {
    && 0 < buff && size < 0x1_0000_0000 && buff + size < WORD_LIMIT
    && HeapStart(buff) + HEADER <= HeapEnd(buff, size)
  }

  lemma UsableBounds(buff: nat, size: nat)
    requires Usable(buff, size)
    ensures buff <= HeapStart(buff) && HeapEnd(buff, size) + HEADER <= buff + size
    ensures HeapStart(buff) % ALIGN == 0 && HeapEnd(buff, size) % ALIGN == 0
  {
    hide RoundDown;
    RoundsDown(buff + (ALIGN - 1));
    RoundsDown(HeapStart(buff) + (size - (HeapStart(buff) - buff)) - HEADER);
  }

  /** Aligning either end and placing the end marker costs at most 30 bytes. */
  lemma HeapBounds(buff: nat, size: nat)
    requires 0 < buff && size < 0x1_0000_0000 && buff + size < WORD_LIMIT && 46 <= size
    ensures Usable(buff, size)
    ensures buff <= HeapStart(buff) <= buff + 7 && HeapStart(buff) % 8 == 0
    ensures buff + size - 24 < HeapEnd(buff, size) <= buff + size - 16 && HeapEnd(buff, size) % 8 == 0
    ensures size - 30 <= HeapEnd(buff, size) - HeapStart(buff)
  {
    hide RoundDown;
    RoundsDown(buff + (ALIGN - 1));
    RoundsDown(HeapStart(buff) + (size - (HeapStart(buff) - buff)) - HEADER);
  }

  lemma Percent(part: nat, whole: nat)
    requires part < whole
    ensures part * 100 / whole <= 99
  {
    assert part * 100 / whole * whole <= part * 100 < 100 * whole;
  }

  class Manager {
    const buff: nat
    const buffSize: nat

    /** `words[a - buff]` is the eight-byte word at the aligned address `a`. */
    const words: array<Word>

    var startNext: Word
    var startSize: Word
    var endOfList: Word
    var byteLeft: Word
    var miniByteLeft: Word
    var blockAllocBit: Word

    /** The abstract state; before the first allocation, the state that allocation will set up. */
    ghost var heap: Heap

    /** Blocks freed and not handed out again since, whose headers no later allocation has reused, though they may
        have been merged away. */
    ghost var stale: set<nat>

    ghost function At(a: int): Word
      reads words
    {
      if 0 <= a - buff < words.Length then words[a - buff] else 0
    }

    ghost function Mem(): (mem: Image)
      reads this`startNext, this`endOfList, words
      ensures mem.base == buff && mem.head == startNext && mem.end == endOfList
      ensures forall a {:trigger mem.At(a)} :: mem.At(a) == At(a)
    {
      Image(buff, startNext, endOfList, words[..])
    }

    ghost predicate Layout()
      reads this
    {
      && Usable(buff, buffSize) && words.Length == buffSize
      && heap.lo == HeapStart(buff) && heap.hi == HeapEnd(buff, buffSize)
      && buff <= heap.lo && heap.hi + HEADER <= buff + buffSize
    }

    ghost predicate Initialised()
      reads this, words
    {
      && startSize == 0 && Mem().Represents(heap)
      && byteLeft == heap.left && miniByteLeft == heap.low && blockAllocBit == ALLOC_BIT
    }

    ghost predicate Valid()
      reads this, words
    {
      && Layout() && WellFormed(heap) && StaleIn(heap, stale) && Mem().Untagged(stale)
      && if endOfList == NULL then
           heap == Fresh(heap.lo, heap.hi) && stale == {} && byteLeft == 0 && blockAllocBit == 0
         else
           Initialised()
    }

    /** Any buffer is taken; the manager is good for use when it holds two headers after alignment. */
    constructor StaticInit(buff: nat, size: nat)
      ensures this.buff == buff && buffSize == size && fresh(words) && endOfList == NULL && stale == {}
      ensures Valid() <==> Usable(buff, size)
      ensures Usable(buff, size) ==> heap == Fresh(HeapStart(buff), HeapEnd(buff, size))
    {
      this.buff := buff;
      buffSize := size;
      words := new Word[size](_ => 0);
      startNext, startSize, endOfList := NULL, 0, NULL;
      byteLeft, miniByteLeft, blockAllocBit := 0, 0, 0;
      heap := if Usable(buff, size) then Fresh(HeapStart(buff), HeapEnd(buff, size)) else Fresh(0, 0);
      stale := {};
      if Usable(buff, size) {
        UsableBounds(buff, size);
        FreshWellFormed(HeapStart(buff), HeapEnd(buff, size));
      }
    }

    /** The successor stored at the head or at the header `p`. */
    function NextOf(p: int): Word
      requires p == START || (Aligned(p) && 0 <= p - buff < words.Length)
      reads this, words
    {
      if p == START then startNext else words[p - buff]
    }

    function SizeOf(p: int): Word
      requires p == START || (Aligned(p) && 0 <= p + 8 - buff < words.Length)
      reads this, words
    {
      if p == START then startSize else words[p + 8 - buff]
    }

    /** Where the heap and its end marker go. */
    method PlaceHeap() returns (aligned: Word, end: Word)
      requires Usable(buff, buffSize)
      ensures aligned == HeapStart(buff) && end == HeapEnd(buff, buffSize)
    {
      UsableBounds(buff, buffSize);
      var total := buffSize;
      var address := buff;
      if address % ALIGN != 0 {
        address := address + (ALIGN - 1);
        address := RoundDown(address);
        total := total - (address - buff);
      }
      aligned := address;
      address := aligned + total;
      address := address - HEADER;
      address := RoundDown(address);
      end := address;
    }

    method HeapInit()
      requires Valid() && endOfList == NULL
      modifies this, words
      ensures Valid() && endOfList != NULL && heap == old(heap) && stale == old(stale)
    {
      hide WellFormed, HeapStart, HeapEnd, Image.Represents, Separated;
      var aligned, end := PlaceHeap();
      startNext := aligned;
      startSize := 0;

      endOfList := end;
      words[endOfList + 8 - buff] := 0;
      words[endOfList - buff] := NULL;

      words[aligned + 8 - buff] := end - aligned;
      words[aligned - buff] := endOfList;

      miniByteLeft := words[aligned + 8 - buff];
      byteLeft := words[aligned + 8 - buff];
      blockAllocBit := ALLOC_BIT;
      FreshRepresents(Mem(), aligned, end);
    }

    /** Grow `it` by the inserted block when that block starts where `it` ends. */
    method JoinBefore(it: int, inserted: Word) returns (block: Word)
      requires startSize == 0 && buff + words.Length < WORD_LIMIT && Mem().JoinReady(it, inserted, buff + words.Length)
      modifies words
      ensures Mem().GrownAt(old(Mem()), it, inserted, block)
    {
      block := inserted;
      if it + SizeOf(it) == block {
        words[it + 8 - buff] := SizeOf(it) + SizeOf(block);
        block := it;
      }
    }

    /** Grow `block` by the successor of `it` when that starts where `block` ends. */
    method JoinNext(it: int, block: Word)
      requires buff + words.Length < WORD_LIMIT && Mem().LinkReady(it, block, buff + words.Length)
      requires it == START || it == block || (Aligned(it) && buff <= it && it + HEADER <= block)
      modifies words
      ensures Mem().GrownUpAt(old(Mem()), it, block)
    {
      if block + SizeOf(block) == NextOf(it) {
        if NextOf(it) != endOfList {
          var next := NextOf(it);
          words[block + 8 - buff] := SizeOf(block) + SizeOf(next);
          words[block - buff] := NextOf(next);
        } else {
          words[block - buff] := endOfList;
        }
      } else {
        words[block - buff] := NextOf(it);
      }
    }

    /** Make `it` lead to `block`. */
    method LinkIn(it: int, block: Word)
      requires it == START || (Aligned(it) && 0 <= it - buff < words.Length)
      modifies this`startNext, words
      ensures Mem().LinkedAt(old(Mem()), it, block)
    {
      if it != block {
        if it == START {
          startNext := block;
        } else {
          words[it - buff] := block;
        }
      }
    }

    /** Join a block to its neighbours `it` and the successor of `it` where they touch. */
    method Join(it: int, inserted: Word)
      requires startSize == 0 && buff + words.Length < WORD_LIMIT && Mem().JoinReady(it, inserted, buff + words.Length)
      modifies this`startNext, words
      ensures Mem().JoinedAt(old(Mem()), it, inserted)
    {
      hide Mem, Image.JoinReady, Image.LinkReady, Image.GrownAt, Image.GrownUpAt, Image.LinkedAt, Image.JoinedAt;
      ghost var was := Mem();
      var block := JoinBefore(it, inserted);
      ghost var mid := Mem();
      GrownReady(was, mid, it, inserted, block, buff + words.Length);
      JoinNext(it, block);
      ghost var grown := Mem();
      LinkIn(it, block);
      GrownLinked(was, mid, grown, Mem(), it, inserted, block, buff + words.Length);
    }

    /** `f` is the free list and lies between the buffer's start and the end marker. */
    ghost predicate Listed(f: seq<Span>)
      reads this`startNext, this`startSize, this`endOfList, words
    {
      && startSize == 0 && 0 < buff <= endOfList
      && buff + words.Length < WORD_LIMIT && endOfList + HEADER <= buff + words.Length
      && Roomy(f) && Mem().Chain(f)
      && Aligned(endOfList) && (forall i | 0 <= i < |f| :: Aligned(f[i].addr))
      && forall i | 0 <= i < |f| :: buff <= f[i].addr && f[i].End() <= endOfList
    }

    /** Walk the free list to the last block below `b`. */
    method Walk(inserted: Word, ghost f: seq<Span>, ghost b: Span) returns (it: int, ghost k: nat)
      requires Listed(f) && Apart(f, b) && b.addr == inserted < b.End() <= endOfList
      ensures k <= |f| && Place(f, b, k) && it == Before(f, k)
    {
      k := 0;
      it := START;
      while NextOf(it) < inserted
        invariant k <= |f| && it == Before(f, k) && NextOf(it) == Link(f, k, endOfList)
        invariant forall j | 0 <= j < k :: f[j].addr < inserted
        decreases |f| - k
      {
        it := NextOf(it);
        k := k + 1;
      }
      PlaceAt(f, b, k);
    }

    lemma WalkedReady(f: seq<Span>, b: Span, k: nat)
      requires Listed(f) && k <= |f| && Place(f, b, k) && HEADER <= b.size && buff <= b.addr && b.End() <= endOfList
      requires Aligned(b.addr) && b.size == Mem().At(b.addr + 8)
      ensures Mem().JoinReady(Before(f, k), b.addr, buff + words.Length)
      ensures startSize == 0 && buff + words.Length < WORD_LIMIT
      ensures Roomy(f) && Mem().Chain(f) && forall i | 0 <= i < |f| :: f[i].End() <= Mem().end
    {
      ChainReady(Mem(), f, b, k, buff + words.Length);
    }

    /** Put a block on the free list: walk to its place, then join it to its neighbours. */
    method InsertBlock(inserted: Word, ghost f: seq<Span>, ghost b: Span) returns (ghost k: nat)
      requires Listed(f) && Apart(f, b) && HEADER <= b.size && buff <= b.addr && b.End() <= endOfList
      requires Aligned(inserted) && b.addr == inserted && b.size == Mem().At(inserted + 8)
      modifies this`startNext, words
      ensures Place(f, b, k)
      ensures Mem().Spliced(old(Mem()), f, JoinFrom(f, b, k), JoinUpTo(f, b, k), Joined(f, b, k))
    {
      hide Listed, Mem, Place, Apart, Roomy, Image.Chain, Image.Spliced, Image.JoinReady, Image.JoinedAt,
        JoinFrom, JoinUpTo, Joined;
      ghost var was := Mem();
      var it;
      it, k := Walk(inserted, f, b);
      WalkedReady(f, b, k);
      assert Mem() == was;
      Join(it, inserted);
      JoinSplices(was, Mem(), f, b, k);
    }

    lemma ValidListed()
      requires Valid() && endOfList != NULL
      ensures Listed(heap.free) && Mem().At(endOfList) == NULL && Mem().At(endOfList + 8) == 0
    {
      HeapRoomy(heap);
    }

    /** What the header of a live or stale block says. */
    lemma HeaderTells(link: nat)
      requires Valid() && (link in heap.live || link in stale)
      ensures Aligned(link) && buff <= link && link + HEADER <= buff + words.Length
      ensures endOfList != NULL && startSize == 0 && blockAllocBit == ALLOC_BIT
      ensures heap.lo <= link && link + HEADER <= heap.hi
      ensures link in heap.live ==> At(link) == NULL && At(link + 8) == heap.live[link] + ALLOC_BIT
      ensures link in heap.live ==> BlockOk(heap.lo, heap.hi, Span(link, heap.live[link]))
      ensures link !in heap.live ==> At(link + 8) < ALLOC_BIT
    {
      assert link in heap.live ==> BlockOk(heap.lo, heap.hi, Span(link, heap.live[link]));
      assert link in stale ==> StaleAt(heap, link);
      assert link in heap.live ==> Mem().At(link) == NULL && Mem().At(link + 8) == heap.live[link] + ALLOC_BIT;
      assert link !in heap.live ==> Mem().At(link + 8) < ALLOC_BIT;
    }

    lemma ReclaimReady(link: nat)
      requires Valid() && link in heap.live
      ensures Listed(heap.free) && Apart(heap.free, Span(link, heap.live[link]))
      ensures byteLeft + heap.live[link] <= heap.hi - heap.lo < ALLOC_BIT
      ensures buff <= link && HEADER <= heap.live[link] && link + heap.live[link] <= endOfList
      ensures WellFormed(heap) && Mem().Represents(heap)
    {
      HeaderTells(link);
      ValidListed();
      LiveApart(heap, link);
      LiveTotalRemove(heap.live, link);
    }

    /** Clearing the tag leaves the list and everything but that one word alone. */
    twostate lemma Cleared(new link: nat)
      requires old(Valid()) && endOfList != NULL && link in heap.live && old(Listed(heap.free))
      requires heap == old(heap) && endOfList == old(endOfList)
      requires startNext == old(startNext) && startSize == old(startSize)
      requires At(link + 8) == heap.live[link] && forall a :: a == link + 8 || At(a) == old(At(a))
      ensures TagCleared(old(Mem()), Mem(), link, heap.live[link]) && Listed(heap.free)
    {
      hide WellFormed, Roomy, Image.Chain, Image.Tagged;
      ClearedChain(heap, old(Mem()), Mem(), link);
    }

    /** Take the tag off a live block and put it on the free list. */
    method Reclaim(link: Word) returns (ghost mid: Image, ghost k: nat)
      requires Valid() && link in heap.live
      modifies this`startNext, this`byteLeft, words
      ensures byteLeft == old(byteLeft) + heap.live[link]
      ensures Freed(heap, old(Mem()), mid, Mem(), Span(link, heap.live[link]), k)
    {
      hide Valid, Listed, Mem, TagCleared, HasBit, ClearBit, BlockOk, Apart, Freed, WellFormed,
        Image.Represents, Image.Spliced, JoinFrom, JoinUpTo, Joined, Place;
      ghost var h, was, b := heap, Mem(), Span(link, heap.live[link]);
      HeaderTells(link);
      ReclaimReady(link);
      TopBit(At(link + 8));
      words[link + 8 - buff] := ClearBit(SizeOf(link), blockAllocBit);
      Cleared(link);
      mid := Mem();
      byteLeft := byteLeft + SizeOf(link);
      k := InsertBlock(link, h.free, b);
      FreedFrom(h, was, mid, Mem(), b, k);
    }

    twostate lemma ReclaimedValid(new mid: Image, new link: nat, new k: nat)
      requires old(Valid()) && link in old(heap.live)
      requires Freed(old(heap), old(Mem()), mid, Mem(), Span(link, old(heap).live[link]), k)
      requires endOfList == old(endOfList) && startSize == old(startSize) && blockAllocBit == old(blockAllocBit)
      requires miniByteLeft == old(miniByteLeft) && byteLeft == old(byteLeft) + old(heap).live[link]
      requires heap == Release(old(heap), link + HEADER) && stale == old(stale) + {link}
      ensures Valid()
      ensures forall a, x | a in heap.live && a <= x < a + heap.live[a] :: Mem().At(x) == old(Mem()).At(x)
    {
      hide WellFormed, Image.Represents, Freed, Release, StaleIn, Image.Untagged;
      ReleaseFields(old(heap), link + HEADER);
      FreedAll(old(heap), old(Mem()), mid, Mem(), Span(link, old(heap).live[link]), k, old(stale));
      FreedOthers(old(heap), old(Mem()), mid, Mem(), Span(link, old(heap).live[link]), k);
    }

    /** Reclaim the block and record it. */
    method FreeLive(link: Word)
      requires Valid() && link in heap.live
      modifies this, words
      ensures Valid() && heap == Release(old(heap), link + HEADER) && stale == old(stale) + {link}
      ensures forall a, x | a in heap.live && a <= x < a + heap.live[a] :: Mem().At(x) == old(Mem()).At(x)
    {
      hide *;
      ReleaseFields(heap, link + HEADER);
      ghost var mid, k := Reclaim(link);
      heap := Release(heap, link + HEADER);
      stale := stale + {link};
      ReclaimedValid(mid, link, k);
    }

    /** Give a block back. Pointers come from `Allocate`: live ones, null, and ones already freed
        whose headers no allocation has reused since, which change nothing. */
    method Free(p: Word)
      requires Valid()
      requires p == NULL || (HEADER <= p && (p - HEADER in heap.live || p - HEADER in stale))
      modifies this, words
      ensures Valid()
      ensures heap == Release(old(heap), p)
      ensures stale == old(stale) + if p == NULL then {} else {p - HEADER}
      ensures p == NULL || p - HEADER !in old(heap.live) ==>
        Mem() == old(Mem()) && byteLeft == old(byteLeft) && miniByteLeft == old(miniByteLeft)
      ensures forall a, x | a in heap.live && a <= x < a + heap.live[a] :: Mem().At(x) == old(Mem()).At(x)
    {
      hide Valid, Release, HasBit, BlockOk;
      ReleaseFields(heap, p);
      if p != NULL {
        var link: Word := p - HEADER;
        HeaderTells(link);
        TopBit(At(link + 8));
        if HasBit(SizeOf(link), blockAllocBit) {
          if NextOf(link) == NULL {
            FreeLive(link);
          }
        }
      }
    }

    /** Search the free list from its lowest address for a block of `need` bytes. */
    method FindFit(need: nat, ghost f: seq<Span>) returns (prev: int, block: Word, ghost i: nat)
      requires Listed(f) && 0 < need && At(endOfList) == NULL && At(endOfList + 8) == 0
      ensures Fits(f, need, i) && prev == Before(f, i) && block == Link(f, i, endOfList)
    {
      prev, block, i := START, startNext, 0;
      assert block == Link(f, 0, endOfList);
      while SizeOf(block) < need && NextOf(block) != NULL
        invariant i <= |f| && prev == Before(f, i) && block == Link(f, i, endOfList)
        invariant forall j | 0 <= j < i :: f[j].size < need
        decreases |f| - i
      {
        assert Mem().At(block) == Link(f, i + 1, endOfList);
        prev := block;
        block := NextOf(block);
        i := i + 1;
      }
      assert i < |f| ==> Mem().At(block) == Link(f, i + 1, endOfList);
    }

    /** Take the block after `prev` off the list. */
    method Unlink(prev: int, block: Word, ghost f: seq<Span>, ghost i: nat)
      requires Listed(f) && i < |f| && prev == Before(f, i) && block == f[i].addr
      modifies this`startNext, words
      ensures Unlinked(old(Mem()), Mem(), f, i)
    {
      if prev == START {
        startNext := NextOf(block);
      } else {
        words[prev - buff] := NextOf(block);
      }
    }

    /** Two words written inside an unlinked block: its size and that of the rest. */
    twostate lemma Cut(new f: seq<Span>, new i: nat, new need: nat)
      requires i < |f| && Roomy(f) && old(Listed(Without(f, i))) && old(At(f[i].addr + 8)) == f[i].size
      requires buff <= f[i].addr && f[i].End() <= endOfList && HEADER <= need && need + HEADER <= f[i].size
      requires startNext == old(startNext) && startSize == old(startSize) && endOfList == old(endOfList)
      requires At(f[i].addr + 8) == need && At(f[i].addr + need + 8) == f[i].size - need
      requires forall a :: a == f[i].addr + 8 || a == f[i].addr + need + 8 || At(a) == old(At(a))
      ensures Cuts(f[i], need, old(Mem()), Mem()) && Listed(Without(f, i)) && old(Mem()).Chain(Without(f, i))
      ensures Apart(Without(f, i), Span(f[i].addr + need, f[i].size - need))
    {
      WithoutRoomy(f, i);
      assert Inside(f[i], old(Mem()), Mem());
      ChainKept(old(Mem()), Mem(), Without(f, i), f[i]);
    }

    /** Cut an unlinked block to `need` bytes and put the rest on the list. */
    method SplitOff(block: Word, need: nat, ghost f: seq<Span>, ghost i: nat) returns (ghost mid: Image, ghost k: nat)
      requires i < |f| && Roomy(f) && Listed(Without(f, i)) && block == f[i].addr && At(block + 8) == f[i].size
      requires buff <= block && block + f[i].size <= endOfList <= buff + words.Length < WORD_LIMIT
      requires HEADER <= need && need + HEADER <= f[i].size && Aligned(block) && Aligned(need)
      modifies this`startNext, words
      ensures SplitAt(f, i, need, old(Mem()), mid, Mem(), k)
    {
      hide Listed, Mem, Roomy, Place, Image.Spliced, Image.Chain, Apart, JoinFrom, JoinUpTo, Joined, SplitAt, Without;
      ghost var was := Mem();
      var rest: Word := block + need;
      words[rest + 8 - buff] := SizeOf(block) - need;
      words[block + 8 - buff] := need;
      mid := Mem();
      Cut(f, i, need);
      k := InsertBlock(rest, Without(f, i), Span(rest, f[i].size - need));
      SplitFrom(f, i, need, was, mid, Mem(), k);
    }

    /** Cut an unlinked block to `need` bytes when enough is left over for a block worth keeping. */
    method Split(block: Word, need: nat, ghost f: seq<Span>, ghost i: nat, ghost kept: set<nat>)
      requires i < |f| && Roomy(f) && Listed(Without(f, i)) && block == f[i].addr && At(block + 8) == f[i].size
      requires buff <= block && block + f[i].size <= endOfList <= buff + words.Length < WORD_LIMIT
      requires HEADER <= need <= f[i].size < ALLOC_BIT && Aligned(block) && Aligned(need)
      requires Kept(f, i, Taken(f[i], need), kept) && Mem().Untagged(kept)
      modifies this`startNext, words
      ensures Mem().Chain(f[..i] + Remainder(f[i], Taken(f[i], need)) + f[i + 1..])
      ensures At(block + 8) == Taken(f[i], need) && OnlyFree(f, old(Mem()), Mem()) && Mem().Untagged(kept)
    {
      hide Mem, Image.Chain, SplitAt, Kept, Image.Untagged;
      if SizeOf(block) - need > MIN_BLOCK {
        ghost var mid, k := SplitOff(block, need, f, i);
        SplitChain(f, i, need, old(Mem()), mid, Mem(), k);
        SplitElsewhere(f, i, need, old(Mem()), mid, Mem(), k);
        SplitUntagged(f, i, need, old(Mem()), mid, Mem(), k, kept);
      } else {
        assert f[..i] + [] + f[i + 1..] == Without(f, i);
      }
    }

    twostate lemma UnlinkedListed(new f: seq<Span>, new i: nat)
      requires old(Listed(f)) && i < |f| && Unlinked(old(Mem()), Mem(), f, i)
      requires startSize == old(startSize) && endOfList == old(endOfList)
      ensures Roomy(f) && Listed(Without(f, i)) && At(f[i].addr + 8) == f[i].size && OnlyFree(f, old(Mem()), Mem())
      ensures Aligned(f[i].addr) && buff <= f[i].addr && f[i].End() <= endOfList <= buff + words.Length < WORD_LIMIT
    {
      UnlinkedChain(old(Mem()), Mem(), f, i);
      UnlinkIsFree(f, i, old(Mem()), Mem());
      UnlinkedSize(old(Mem()), Mem(), f, i, i);
      WithoutRoomy(f, i);
    }

    /** Take `need` bytes, or the whole block when too little would be left, off the list. */
    method TakeOff(prev: int, block: Word, need: nat, ghost f: seq<Span>, ghost i: nat, ghost kept: set<nat>)
      requires Listed(f) && i < |f| && prev == Before(f, i) && block == f[i].addr && HEADER <= need <= f[i].size
      requires Aligned(need) && f[i].size < ALLOC_BIT && Kept(f, i, Taken(f[i], need), kept) && Mem().Untagged(kept)
      modifies this`startNext, words
      ensures Mem().Chain(f[..i] + Remainder(f[i], Taken(f[i], need)) + f[i + 1..])
      ensures At(block + 8) == Taken(f[i], need) && OnlyFree(f, old(Mem()), Mem()) && Mem().Untagged(kept)
    {
      hide Listed, Mem, At, Unlinked, Image.Chain, Roomy, Without, Remainder, Taken, Kept, Image.Untagged;
      Unlink(prev, block, f, i);
      UnlinkedListed(f, i);
      UnlinkUntagged(f, i, Taken(f[i], need), old(Mem()), Mem(), kept);
      Split(block, need, f, i, kept);
    }

    lemma GrantReady(need: nat, i: nat)
      requires Valid() && endOfList != NULL && i < |heap.free| && HEADER <= need <= heap.free[i].size
      ensures var f := heap.free;
        && Listed(f) && blockAllocBit == ALLOC_BIT && (if i == 0 then startNext else At(f[i - 1].addr)) == f[i].addr
        && buff <= f[i].addr && f[i].addr + HEADER <= buff + words.Length < WORD_LIMIT
        && (0 < i ==> buff <= f[i - 1].addr < buff + words.Length)
        && HEADER <= Taken(f[i], need) <= f[i].size && Taken(f[i], need) <= byteLeft && f[i].size < ALLOC_BIT
    {
      ValidListed();
      TotalAtLeast(heap.free, i);
      assert Mem().NextOf(Before(heap.free, i)) == Link(heap.free, i, endOfList);
    }

    /** Mark a block as in use. */
    method Tag(block: Word)
      requires Aligned(block) && buff <= block && block + HEADER <= buff + words.Length < WORD_LIMIT
      requires blockAllocBit == ALLOC_BIT && At(block + 8) < ALLOC_BIT
      modifies words
      ensures Inside(Span(block, HEADER), old(Mem()), Mem())
      ensures Mem().At(block) == NULL && Mem().At(block + 8) == old(At(block + 8)) + ALLOC_BIT
    {
      TopBit(At(block + 8));
      words[block + 8 - buff] := SetBit(SizeOf(block), blockAllocBit);
      words[block - buff] := NULL;
    }

    /** The end marker is fixed once it is placed. */
    twostate lemma EndSame()
      requires endOfList == old(endOfList)
      ensures Mem().end == old(Mem()).end
    {
    }

    /** Take the block found by the search and tag it. */
    method Grant(prev: int, block: Word, need: nat, ghost i: nat, ghost kept: set<nat>)
      returns (p: Word, ghost cut: Image)
      requires Valid() && endOfList != NULL
      requires i < |heap.free| && prev == Before(heap.free, i) && block == heap.free[i].addr
      requires HEADER <= need <= heap.free[i].size && Aligned(need)
      requires Kept(heap.free, i, Taken(heap.free[i], need), kept) && Mem().Untagged(kept)
      modifies this`startNext, this`byteLeft, this`miniByteLeft, words
      ensures p == block + HEADER
      ensures Granted(heap.free, i, Taken(heap.free[i], need), old(Mem()), cut, Mem()) && Mem().Untagged(kept)
      ensures byteLeft == old(byteLeft) - Taken(heap.free[i], need)
      ensures miniByteLeft == if byteLeft < old(miniByteLeft) then byteLeft else old(miniByteLeft)
    {
      hide Valid, Listed, Mem, Image.Chain, OnlyFree, Taken, Remainder, Inside, Kept, Image.Untagged;
      GrantReady(need, i);
      p := NextOf(prev) + HEADER;
      TakeOff(prev, block, need, heap.free, i, kept);
      cut := Mem();
      byteLeft := byteLeft - SizeOf(block);
      if byteLeft < miniByteLeft {
        miniByteLeft := byteLeft;
      }
      Tag(block);
      TagUntagged(heap.free, i, Taken(heap.free[i], need), cut, Mem(), kept);
      EndSame();
    }

    twostate lemma GrantedValid(new n: nat, new cut: Image)
      requires old(Valid()) && old(endOfList) != NULL && 0 < n < ALLOC_BIT
      requires var i := FirstFit(old(heap).free, Need(n));
        && i < |old(heap).free|
        && Granted(old(heap).free, i, Taken(old(heap).free[i], Need(n)), old(Mem()), cut, Mem())
        && byteLeft == old(byteLeft) - Taken(old(heap).free[i], Need(n))
      requires miniByteLeft == if byteLeft < old(miniByteLeft) then byteLeft else old(miniByteLeft)
      requires endOfList == old(endOfList) && startSize == old(startSize) && blockAllocBit == old(blockAllocBit)
      requires heap == HeapModel.Allocate(old(heap), n).0 && StaleIn(heap, stale) && Mem().Untagged(stale)
      ensures Valid()
      ensures forall a, x | a in old(heap).live && a <= x < a + old(heap).live[a] :: Mem().At(x) == old(Mem()).At(x)
    {
      hide WellFormed, Image.Represents, Granted, HeapModel.Allocate, Taken, Remainder, Need, StaleIn, Image.Untagged;
      AllocatedFields(old(heap), n);
      AllocateKeeps(old(heap), n);
      GrantedRepresents(old(heap), n, old(Mem()), cut, Mem());
    }

    lemma IssueReady(n: nat, kept: set<nat>)
      requires Valid() && endOfList != NULL && 0 < n < ALLOC_BIT && FirstFit(heap.free, Need(n)) < |heap.free|
      requires kept == StillStale(HeapModel.Allocate(heap, n).0, stale)
      ensures var i := FirstFit(heap.free, Need(n)); Kept(heap.free, i, Taken(heap.free[i], Need(n)), kept)
      ensures Mem().Untagged(kept) && StaleIn(HeapModel.Allocate(heap, n).0, kept)
    {
      hide WellFormed, Initialised, HeapModel.Allocate, Taken, Kept;
      KeptOfStale(heap, n, stale);
    }

    /** Hand out the block found by the search and record it. */
    method Issue(prev: int, block: Word, ghost n: nat, need: nat, ghost i: nat) returns (p: Word)
      requires Valid() && endOfList != NULL && 0 < n < ALLOC_BIT && need == Need(n) && Fits(heap.free, need, i)
      requires i < |heap.free| && prev == Before(heap.free, i) && block == heap.free[i].addr
      modifies this, words
      ensures Valid() && (heap, p as nat) == HeapModel.Allocate(old(heap), n) && p != NULL && endOfList != NULL
      ensures stale == StillStale(heap, old(stale))
      ensures forall a, x | a in old(heap).live && a <= x < a + old(heap).live[a] :: Mem().At(x) == old(Mem()).At(x)
    {
      hide Valid, Granted, HeapModel.Allocate, Taken, Remainder, Mem, StillStale, Kept, StaleIn, Image.Untagged;
      FirstFitUnique(heap.free, need, i);
      AllocatedFields(heap, n);
      ghost var kept := StillStale(HeapModel.Allocate(heap, n).0, stale);
      IssueReady(n, kept);
      ghost var cut;
      p, cut := Grant(prev, block, need, i, kept);
      heap := HeapModel.Allocate(heap, n).0;
      stale := kept;
      GrantedValid(n, cut);
    }

    /** Room for the header, rounded up to the alignment; it cannot wrap below the top bit. */
    method RoundUp(n: Word) returns (size: Word)
      requires n < ALLOC_BIT
      ensures size == (if n == 0 then 0 else Need(n)) && (size == 0 <==> n == 0)
    {
      size := n;
      if 0 < size {
        size := size + HEADER;
        if size % ALIGN != 0 {
          size := size + (ALIGN - size % ALIGN);
        }
      }
    }

    lemma ServeReady()
      requires Valid() && endOfList != NULL
      ensures Listed(heap.free) && At(endOfList) == NULL && At(endOfList + 8) == 0
      ensures WellFormed(heap) && blockAllocBit == ALLOC_BIT && byteLeft == heap.left
    {
      ValidListed();
    }

    lemma SearchFailed(f: seq<Span>, i: nat)
      requires Listed(f) && i <= |f| && Link(f, i, endOfList) == endOfList
      ensures i == |f|
    {
    }

    /** First fit on a heap that is set up. */
    method Serve(n: Word) returns (p: Word)
      requires Valid() && endOfList != NULL
      modifies this, words
      ensures Valid() && endOfList != NULL && (heap, p as nat) == HeapModel.Allocate(old(heap), n)
      ensures stale == if p == NULL then old(stale) else StillStale(heap, old(stale))
      ensures p == NULL ==> Mem() == old(Mem()) && byteLeft == old(byteLeft) && miniByteLeft == old(miniByteLeft)
      ensures forall a, x | a in old(heap).live && a <= x < a + old(heap).live[a] :: Mem().At(x) == old(Mem()).At(x)
    {
      hide Valid, HeapModel.Allocate, HasBit, Need, Listed, StillStale, Mem, WellFormed, Fits;
      ServeReady();
      p := NULL;
      TopBit(n);
      if !HasBit(n, blockAllocBit) {
        var size := RoundUp(n);
        if 0 < size && size <= byteLeft {
          ghost var i;
          var prev, block;
          prev, block, i := FindFit(size, heap.free);
          FirstFitUnique(heap.free, size, i);
          if block != endOfList {
            p := Issue(prev, block, n, size, i);
          } else {
            SearchFailed(heap.free, i);
            NothingAllocated(heap, n);
          }
        } else {
          NothingAllocated(heap, n);
        }
      } else {
        NothingAllocated(heap, n);
      }
    }

    /** First fit. The first call sets the heap up. */
    method Allocate(n: Word) returns (p: Word)
      requires Valid()
      modifies this, words
      ensures Valid() && endOfList != NULL
      ensures (heap, p as nat) == HeapModel.Allocate(old(heap), n)
      ensures stale == if p == NULL then old(stale) else StillStale(heap, old(stale))
      ensures forall g | g in old(stale)
        && (forall a | a in heap.live :: g + 16 <= a || a + heap.live[a] <= g)
        && (forall i | 0 <= i < |heap.free| ::
              g == heap.free[i].addr || g + 16 <= heap.free[i].addr || heap.free[i].addr + 16 <= g) :: g in stale
      ensures p == NULL && old(endOfList) != NULL ==>
        Mem() == old(Mem()) && byteLeft == old(byteLeft) && miniByteLeft == old(miniByteLeft)
      ensures forall a, x | a in old(heap).live && a <= x < a + old(heap).live[a] :: Mem().At(x) == old(Mem()).At(x)
    {
      hide HeapModel.Allocate, WellFormed, Initialised, Layout, Mem, StillStale;
      ghost var h := heap;
      if endOfList == NULL {
        HeapInit();
      }
      p := Serve(n);
      StaysStale(h, n, old(stale));
    }

    method MemoryLeft() returns (left: Word)
      requires Valid()
      ensures left == if endOfList == NULL then 0 else heap.left
    {
      left := byteLeft;
    }

    lemma LeftBelowSize()
      requires Valid()
      ensures 0 < buffSize < 0x1_0000_0000 && 0 <= byteLeft < buffSize
      ensures byteLeft == if endOfList == NULL then 0 else heap.left
    {
    }

    /** Free memory in percent of the buffer, in 64-bit arithmetic: never above 99. */
    method Remaining() returns (percent: Word)
      requires Valid()
      ensures percent == (if endOfList == NULL then 0 else heap.left) * 100 / buffSize <= 99
    {
      hide Valid;
      LeftBelowSize();
      Percent(byteLeft, buffSize);
      var hundredfold: Word := byteLeft * 100;
      percent := hundredfold / buffSize;
    }

    lemma PayloadInside(a: nat)
      requires Valid() && a in heap.live
      ensures endOfList != NULL && heap.lo <= a && a + heap.live[a] <= heap.hi
    {
      assert BlockOk(heap.lo, heap.hi, Span(a, heap.live[a]));
    }

    /** The application writes a word of a payload it holds: the manager does not notice. */
    method Write(a: nat, x: Word, v: Word)
      requires Valid() && a in heap.live && x % ALIGN == 0 && a + HEADER <= x && x + 8 <= a + heap.live[a]
      modifies words
      ensures Valid() && Mem().At(x) == v && forall y :: y == x || Mem().At(y) == old(Mem()).At(y)
    {
      hide WellFormed, Image.Represents, Image.Untagged, StaleIn;
      PayloadInside(a);
      words[x - buff] := v;
      WrittenRepresents(heap, old(Mem()), Mem(), a, x);
      WrittenUntagged(heap, old(Mem()), Mem(), a, x, stale);
    }
  }
}
