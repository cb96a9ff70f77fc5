/** Address-ordered lists of separated spans: the shape the allocator's free list always has. */
module Spans {

  /** The bytes `addr .. addr + size`. */
  datatype Span = Span(addr: nat, size: nat) {
    function End(): nat { addr + size }

    predicate Has(x: int) { addr <= x < addr + size }
  }

  /** Non-empty spans in address order, no two of which touch: every span is maximal. */
  ghost predicate Separated(f: seq<Span>) {
    && (forall i | 0 <= i < |f| :: f[i].size > 0)
    && (forall i, j | 0 <= i < j < |f| :: f[i].End() < f[j].addr)
  }

  ghost predicate Covered(f: seq<Span>, x: int) {
    exists i :: 0 <= i < |f| && f[i].Has(x)
  }

  /** `b` overlaps no span of `f`. */
  ghost predicate Apart(f: seq<Span>, b: Span) {
    forall i | 0 <= i < |f| :: f[i].End() <= b.addr || b.End() <= f[i].addr
  }

  function Total(f: seq<Span>): nat {
    if f == [] then 0 else f[0].size + Total(f[1..])
  }

  /** The number of spans that start below `a` in an ordered list. */
  function Position(f: seq<Span>, a: nat): (p: nat)
    ensures p <= |f|
    ensures forall i | 0 <= i < p :: f[i].addr < a
    ensures p < |f| ==> a <= f[p].addr
  {
    if f == [] || a <= f[0].addr then 0 else 1 + Position(f[1..], a)
  }

  /** Where the spans joined to `b` at place `k` begin: one earlier when that span ends at `b`. */
  function JoinFrom(f: seq<Span>, b: Span, k: nat): (l: nat)
    requires k <= |f|
    ensures l <= k
  {
    if 0 < k && f[k - 1].End() == b.addr then k - 1 else k
  }

  /** Where the spans joined to `b` at place `k` end: one later when `b` ends at that span. */
  function JoinUpTo(f: seq<Span>, b: Span, k: nat): (r: nat)
    requires k <= |f|
    ensures k <= r <= |f|
  {
    if k < |f| && b.End() == f[k].addr then k + 1 else k
  }

  /** `b` together with the spans it is joined to at place `k`. */
  function Joined(f: seq<Span>, b: Span, k: nat): Span
    requires k <= |f|
  {
    var l, r := JoinFrom(f, b, k), JoinUpTo(f, b, k);
    Span(if l < k then f[l].addr else b.addr,
         (if l < k then f[l].size else 0) + b.size + (if k < r then f[k].size else 0))
  }

  /** `k` is the place of `b` among the spans of `f`. */
  ghost predicate Place(f: seq<Span>, b: Span, k: nat) {
    && k <= |f|
    && (forall i | 0 <= i < k :: f[i].End() <= b.addr)
    && (forall i | k <= i < |f| :: b.End() <= f[i].addr)
  }

  /** The stretch `f[l..r]` replaced by `m`. */
  function Splice(f: seq<Span>, l: nat, r: nat, m: Span): seq<Span>
    requires l <= r <= |f|
  {
    f[..l] + [m] + f[r..]
  }

  /** `m` can stand for the stretch `f[l..r]`: it touches none of the other spans. */
  ghost predicate Clear(f: seq<Span>, l: nat, r: nat, m: Span) {
    && l <= r <= |f|
    && (forall i | 0 <= i < l :: f[i].End() < m.addr)
    && (forall i | r <= i < |f| :: m.End() < f[i].addr)
  }

  /** Put `b` at its place in address order, joining it to the span that ends where it starts and to
      the span that starts where it ends. */
  function Insert(f: seq<Span>, b: Span): seq<Span> {
    var k := Position(f, b.addr);
    Splice(f, JoinFrom(f, b, k), JoinUpTo(f, b, k), Joined(f, b, k))
  }

  lemma PositionUnique(f: seq<Span>, a: nat, p: nat)
    requires p <= |f|
    requires forall i | 0 <= i < p :: f[i].addr < a
    requires p < |f| ==> a <= f[p].addr
    ensures Position(f, a) == p
  {
  }

  lemma {:induction false} TotalConcat(f: seq<Span>, g: seq<Span>)
    ensures Total(f + g) == Total(f) + Total(g)
  {
    if f == [] {
      assert f + g == g;
    } else {
      TotalConcat(f[1..], g);
      assert (f + g)[1..] == f[1..] + g;
    }
  }

  /** Replacing the stretch `f[i..j]` by `m` changes the total by the difference of the stretches. */
  lemma TotalSplice(f: seq<Span>, i: nat, j: nat, m: seq<Span>)
    requires i <= j <= |f|
    ensures Total(f[..i] + m + f[j..]) == Total(f) - Total(f[i..j]) + Total(m)
  {
    assert f == f[..i] + f[i..j] + f[j..];
    TotalConcat(f[..i] + f[i..j], f[j..]);
    TotalConcat(f[..i], f[i..j]);
    TotalConcat(f[..i] + m, f[j..]);
    TotalConcat(f[..i], m);
  }

  lemma {:induction false} TotalAtLeast(f: seq<Span>, i: nat)
    requires i < |f|
    ensures f[i].size <= Total(f)
  {
    if 0 < i {
      TotalAtLeast(f[1..], i - 1);
    }
  }

  lemma PlaceAt(f: seq<Span>, b: Span, k: nat)
    requires Separated(f) && Apart(f, b) && b.size > 0 && k <= |f|
    requires forall i | 0 <= i < k :: f[i].addr < b.addr
    requires k < |f| ==> b.addr <= f[k].addr
    ensures Place(f, b, k)
  {
    forall i | k <= i < |f|
      ensures b.End() <= f[i].addr
    {
      assert k < i ==> f[k].End() < f[i].addr;
    }
  }

  lemma PlaceOf(f: seq<Span>, b: Span)
    requires Separated(f) && b.size > 0 && Apart(f, b)
    ensures Place(f, b, Position(f, b.addr))
  {
    PlaceAt(f, b, Position(f, b.addr));
  }

  /** A list inserted into at any place that fits is the list that insertion makes. */
  lemma PlaceUnique(f: seq<Span>, b: Span, k: nat)
    requires Separated(f) && b.size > 0 && Place(f, b, k)
    ensures k == Position(f, b.addr)
    ensures Insert(f, b) == Splice(f, JoinFrom(f, b, k), JoinUpTo(f, b, k), Joined(f, b, k))
  {
    PositionUnique(f, b.addr, k);
  }

  /** The joined span runs over exactly the joined stretch and `b`, and stays clear of the rest. */
  lemma JoinedExtent(f: seq<Span>, b: Span, k: nat)
    requires Separated(f) && b.size > 0 && Place(f, b, k)
    ensures Clear(f, JoinFrom(f, b, k), JoinUpTo(f, b, k), Joined(f, b, k))
    ensures forall x: int ::
      Joined(f, b, k).Has(x) <==> b.Has(x) || exists i :: JoinFrom(f, b, k) <= i < JoinUpTo(f, b, k) && f[i].Has(x)
  {
    var l, r, m := JoinFrom(f, b, k), JoinUpTo(f, b, k), Joined(f, b, k);
    assert m.addr == if l < k then f[l].addr else b.addr;
    assert m.End() == if k < r then f[k].End() else b.End();
  }

  /** Replacing a stretch of a separated list by a span clear of the rest keeps it separated. */
  lemma SpliceSeparated(f: seq<Span>, l: nat, r: nat, m: Span)
    requires Separated(f) && m.size > 0 && Clear(f, l, r, m)
    ensures Separated(Splice(f, l, r, m))
  {
  }

  /** Insertion keeps the list maximal. */
  lemma InsertSeparated(f: seq<Span>, b: Span)
    requires Separated(f) && b.size > 0 && Apart(f, b)
    ensures Separated(Insert(f, b))
  {
    var k := Position(f, b.addr);
    PlaceOf(f, b);
    JoinedExtent(f, b, k);
    SpliceSeparated(f, JoinFrom(f, b, k), JoinUpTo(f, b, k), Joined(f, b, k));
  }

  lemma SpliceCovers(f: seq<Span>, l: nat, r: nat, m: Span, x: int)
    requires l <= r <= |f|
    ensures Covered(Splice(f, l, r, m), x)
       <==> m.Has(x) || exists i :: 0 <= i < |f| && !(l <= i < r) && f[i].Has(x)
  {
    var g := Splice(f, l, r, m);
    assert g[l] == m;
    forall i | 0 <= i < |f| && !(l <= i < r)
      ensures f[i] == g[if i < l then i else i - r + l + 1]
    {
    }
    forall i | 0 <= i < |g| && i != l
      ensures g[i] == f[if i < l then i else i - l - 1 + r]
    {
    }
  }

  /** Insertion covers exactly what was covered before and the new span. */
  lemma InsertCovers(f: seq<Span>, b: Span, x: int)
    requires Separated(f) && b.size > 0 && Apart(f, b)
    ensures Covered(Insert(f, b), x) <==> Covered(f, x) || b.Has(x)
  {
    var k := Position(f, b.addr);
    PlaceOf(f, b);
    JoinedExtent(f, b, k);
    SpliceCovers(f, JoinFrom(f, b, k), JoinUpTo(f, b, k), Joined(f, b, k), x);
  }

  lemma InsertTotal(f: seq<Span>, b: Span)
    ensures Total(Insert(f, b)) == Total(f) + b.size
  {
    var k := Position(f, b.addr);
    var l, r := JoinFrom(f, b, k), JoinUpTo(f, b, k);
    TotalSplice(f, l, r, [Joined(f, b, k)]);
    TotalConcat(f[l..k], f[k..r]);
    assert f[l..k] + f[k..r] == f[l..r];
    assert l < k ==> f[l..k] == [f[l]];
    assert k < r ==> f[k..r] == [f[k]];
  }

  lemma HeadCovered(f: seq<Span>)
    requires Separated(f)
    ensures f == [] ==> forall x :: !Covered(f, x)
    ensures f != [] ==> Covered(f, f[0].addr)
  {
    assert f != [] ==> f[0].Has(f[0].addr);
  }

  lemma TailCovered(f: seq<Span>, x: int)
    requires Separated(f) && f != []
    ensures Covered(f[1..], x) <==> Covered(f, x) && !f[0].Has(x)
  {
    if Covered(f[1..], x) {
      var i :| 0 <= i < |f[1..]| && f[1..][i].Has(x);
      assert f[i + 1].Has(x);
    }
    if Covered(f, x) && !f[0].Has(x) {
      var i :| 0 <= i < |f| && f[i].Has(x);
      assert f[1..][i - 1].Has(x);
    }
  }

  lemma EndNotCovered(f: seq<Span>)
    requires Separated(f) && f != []
    ensures !Covered(f, f[0].End())
  {
    forall i | 0 <= i < |f|
      ensures !f[i].Has(f[0].End())
    {
      assert 0 < i ==> f[0].End() < f[i].addr;
    }
  }

  /** The first span of `g` starts no later than that of `f`, and when they start together it
      ends no earlier. */
  lemma HeadReaches(f: seq<Span>, g: seq<Span>)
    requires Separated(f) && Separated(g) && f != [] && g != []
    requires forall x :: Covered(f, x) <==> Covered(g, x)
    ensures g[0].addr <= f[0].addr
    ensures g[0].addr == f[0].addr ==> f[0].End() <= g[0].End()
  {
    assert f[0].Has(f[0].addr);
    assert Covered(f, f[0].addr);
    EndNotCovered(g);
    assert !Covered(f, g[0].End());
    assert !f[0].Has(g[0].End());
  }

  /** A separated list is determined by the bytes it covers. */
  lemma {:induction false} Canonical(f: seq<Span>, g: seq<Span>)
    requires Separated(f) && Separated(g)
    requires forall x :: Covered(f, x) <==> Covered(g, x)
    ensures f == g
  {
    HeadCovered(f);
    HeadCovered(g);
    if f != [] && g != [] {
      HeadReaches(f, g);
      HeadReaches(g, f);
      assert f[0] == g[0];
      forall x
        ensures Covered(f[1..], x) <==> Covered(g[1..], x)
      {
        TailCovered(f, x);
        TailCovered(g, x);
      }
      Canonical(f[1..], g[1..]);
      assert f == [f[0]] + f[1..] && g == [g[0]] + g[1..];
    }
  }
}
