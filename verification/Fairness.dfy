/** Round robin while the list changes: how long an item waits for its turn when calls of every kind interleave. */
module Fairness {
  import opened CursorRing
  import opened Seqs

  /** A call on the list: step the cursor, put an item before it, put one in at a slot as sorted insertion does
      wherever the values place it, or take an item off. */
  datatype Call<T> = Next | AddLast(x: T) | AddAt(x: T, slot: nat) | Take(x: T)

  function IndexOf<T(==)>(s: seq<T>, x: T): (i: nat)
    ensures i <= |s|
    ensures forall j | 0 <= j < i :: s[j] != x
    ensures i < |s| ==> s[i] == x
    ensures x in s <==> i < |s|
  {
    if s == [] || s[0] == x then 0 else 1 + IndexOf(s[1..], x)
  }

  lemma IndexUnique<T>(s: seq<T>, i: nat)
    requires Distinct(s) && i < |s|
    ensures IndexOf(s, s[i]) == i
  {
  }

  ghost predicate Proper<T>(r: Ring<T>) {
    r.cursor <= |r.items| && Distinct(r.items)
  }

  /** The call puts an item in: one that is not on the list, at a slot the list has. */
  predicate Adds<T(==)>(r: Ring<T>, c: Call<T>) {
    (c.AddLast? && c.x !in r.items) || (c.AddAt? && c.x !in r.items && c.slot <= |r.items|)
  }

  /** Where it goes. */
  function SlotFor<T>(r: Ring<T>, c: Call<T>): nat
    requires c.AddLast? || c.AddAt?
  {
    if c.AddAt? then c.slot else if r.cursor == 0 then |r.items| else r.cursor - 1
  }

  /** Items on the list are not put on it again, and items not on it not taken off. */
  function Step<T(==)>(r: Ring<T>, c: Call<T>): (r': Ring<T>)
    requires r.cursor <= |r.items|
    ensures r'.cursor <= |r'.items|
  {
    match c
    case Next => if r.items == [] then r else Advance(r)
    case AddLast(x) => if Adds(r, c) then InsertEnd(r, x) else r
    case AddAt(x, slot) => if Adds(r, c) then InsertAt(r, slot, x) else r
    case Take(x) => if x in r.items then RemoveAt(r, IndexOf(r.items, x)) else r
  }

  /** What the steps of the cursor return, in order. */
  function Returned<T(==)>(r: Ring<T>, cs: seq<Call<T>>): seq<T>
    requires r.cursor <= |r.items|
    decreases |cs|
  {
    if cs == [] then []
    else (if cs[0].Next? && r.items != [] then [Current(Advance(r))] else []) + Returned(Step(r, cs[0]), cs[1..])
  }

  function Nexts<T>(cs: seq<Call<T>>): nat {
    if cs == [] then 0 else (if cs[0].Next? then 1 else 0) + Nexts(cs[1..])
  }

  predicate On<T(==)>(r: Ring<T>, y: T)
    requires r.cursor <= |r.items|
  {
    0 < r.cursor && Current(r) == y
  }

  /** Where an item comes in the visiting order. */
  function Place<T(==)>(r: Ring<T>, y: T): nat
    requires r.cursor <= |r.items| && y in r.items
  {
    VisitOf(r, IndexOf(r.items, y))
  }

  /** The call returns `y`. */
  predicate Returns<T(==)>(r: Ring<T>, c: Call<T>, y: T)
    requires r.cursor <= |r.items|
  {
    c.Next? && r.items != [] && Current(Advance(r)) == y
  }

  /** Slot `q` lies between the cursor and item `p`, going round forwards. */
  predicate Between<T>(r: Ring<T>, q: nat, p: nat) {
    if r.cursor <= p then r.cursor <= q <= p else r.cursor <= q || q <= p
  }

  /** The call puts an item in ahead of `y`. */
  predicate Overtakes<T(==)>(r: Ring<T>, c: Call<T>, y: T) {
    Adds(r, c) && Between(r, SlotFor(r, c), IndexOf(r.items, y))
  }

  /** The call takes off an item that comes before `y` in the visiting order. */
  predicate Clears<T(==)>(r: Ring<T>, c: Call<T>, y: T)
    requires r.cursor <= |r.items|
  {
    c.Take? && c.x in r.items && y in r.items && Place(r, c.x) < Place(r, y)
  }

  /** How many calls overtake `y` before it is returned. */
  function Delays<T(==)>(r: Ring<T>, cs: seq<Call<T>>, y: T): nat
    requires r.cursor <= |r.items|
    decreases |cs|
  {
    if cs == [] || Returns(r, cs[0], y) then 0
    else (if Overtakes(r, cs[0], y) then 1 else 0) + Delays(Step(r, cs[0]), cs[1..], y)
  }

  /** How many calls clear the way of `y` before it is returned. */
  function Gains<T(==)>(r: Ring<T>, cs: seq<Call<T>>, y: T): nat
    requires r.cursor <= |r.items|
    decreases |cs|
  {
    if cs == [] || Returns(r, cs[0], y) then 0
    else (if Clears(r, cs[0], y) then 1 else 0) + Gains(Step(r, cs[0]), cs[1..], y)
  }

  /** The item the cursor is on is taken off and `y` lies before it, so that the cursor falls back on `y`. */
  predicate Undercuts<T(==)>(r: Ring<T>, c: Call<T>, y: T)
    requires r.cursor <= |r.items|
  {
    c.Take? && On(r, c.x) && 2 <= r.cursor && r.items[r.cursor - 2] == y
  }

  /** That happens to `y` at some point before `y` is returned. */
  predicate EverUndercut<T(==)>(r: Ring<T>, cs: seq<Call<T>>, y: T)
    requires r.cursor <= |r.items|
    decreases |cs|
  {
    cs != [] && !Returns(r, cs[0], y) && (Undercuts(r, cs[0], y) || EverUndercut(Step(r, cs[0]), cs[1..], y))
  }

  /** The calls are the operations of the list. */
  lemma StepIsOperation<T>(r: Ring<T>, x: T, p: nat)
    requires Proper(r)
    ensures r.items != [] ==> Step(r, Next) == Advance(r)
    ensures x !in r.items ==> Step(r, AddLast(x)) == InsertEnd(r, x)
    ensures x !in r.items && p <= |r.items| ==> Step(r, AddAt(x, p)) == InsertAt(r, p, x)
    ensures p < |r.items| ==> Step(r, Take(r.items[p])) == RemoveAt(r, p)
  {
    if p < |r.items| {
      IndexUnique(r.items, p);
    }
  }

  // ---- one call ----

  /** The visiting order has each item at its place. */
  lemma PlaceIsVisit<T>(r: Ring<T>, y: T)
    requires Proper(r) && y in r.items
    ensures Place(r, y) < |r.items| && Visits(r)[Place(r, y)] == y
    ensures Place(r, y) == 0 <==> Current(Advance(r)) == y
    ensures On(r, y) <==> r.cursor == IndexOf(r.items, y) + 1
  {
    var p := IndexOf(r.items, y);
    assert r.items[p] == y;
  }

  lemma PlaceAfterNext<T>(r: Ring<T>, y: T)
    requires Proper(r) && y in r.items && 0 < Place(r, y)
    ensures Place(Advance(r), y) == Place(r, y) - 1 && !On(Advance(r), y)
  {
    PlaceIsVisit(r, y);
  }

  lemma InsertDistinct<T>(s: seq<T>, q: nat, x: T)
    requires Distinct(s) && x !in s && q <= |s|
    ensures Distinct(s[..q] + [x] + s[q..])
  {
  }

  lemma RemoveDistinct<T>(s: seq<T>, q: nat)
    requires Distinct(s) && q < |s|
    ensures Distinct(s[..q] + s[q + 1..])
  {
  }

  /** Where the items are after a new one was put in at slot `q`. */
  lemma AddedAt<T>(r: Ring<T>, q: nat, x: T, p: nat)
    requires Proper(r) && q <= |r.items| && p < |r.items| && x !in r.items
    ensures var r', p' := InsertAt(r, q, x), if p < q then p else p + 1;
      && Proper(r') && p' < |r'.items| && r'.items[p'] == r.items[p]
      && IndexOf(r'.items, r.items[p]) == p' && IndexOf(r'.items, x) == q && x in r'.items
      && VisitOf(r', p') == VisitOf(r, p) + (if Between(r, q, p) then 1 else 0)
      && (VisitOf(r', q) < VisitOf(r', p') <==> Between(r, q, p))
      && (r'.cursor == p' + 1 <==> r.cursor == p + 1)
  {
    var r' := InsertAt(r, q, x);
    assert r'.items == r.items[..q] + [x] + r.items[q..];
    InsertDistinct(r.items, q, x);
    IndexUnique(r'.items, if p < q then p else p + 1);
    IndexUnique(r'.items, q);
  }

  /** An item put in delays those it overtakes by one place and no others; it overtakes exactly those that then come
      after it in the visiting order. */
  lemma PlaceAfterAdd<T>(r: Ring<T>, c: Call<T>, y: T)
    requires Proper(r) && y in r.items && Adds(r, c)
    ensures var r' := Step(r, c);
      && Proper(r') && y in r'.items && c.x in r'.items && (On(r', y) <==> On(r, y))
      && Place(r', y) == Place(r, y) + (if Overtakes(r, c, y) then 1 else 0)
      && (Overtakes(r, c, y) <==> Place(r', c.x) < Place(r', y))
  {
    hide InsertAt, VisitOf, On, Distinct, Between;
    assert Step(r, c) == InsertAt(r, SlotFor(r, c), c.x);
    AddedAt(r, SlotFor(r, c), c.x, IndexOf(r.items, y));
    PlaceIsVisit(r, y);
    PlaceIsVisit(Step(r, c), y);
  }

  /** Before the cursor, that is the item the cursor is on and no other. */
  lemma AddLastOvertakes<T>(r: Ring<T>, x: T, y: T)
    requires Proper(r) && y in r.items && x !in r.items
    ensures Overtakes(r, AddLast(x), y) <==> On(r, y)
  {
    PlaceIsVisit(r, y);
  }

  /** Where the items are after item `q` has gone. */
  lemma RemovedAt<T>(r: Ring<T>, q: nat, p: nat)
    requires Proper(r) && q < |r.items| && p < |r.items| && p != q
    ensures var r', p' := RemoveAt(r, q), if p < q then p else p - 1;
      && Proper(r') && p' < |r'.items| && r'.items[p'] == r.items[p] && IndexOf(r'.items, r.items[p]) == p'
      && VisitOf(r', p') == VisitOf(r, p) - (if VisitOf(r, q) < VisitOf(r, p) then 1 else 0)
      && (r'.cursor == p' + 1 <==> r.cursor == p + 1 || (r.cursor == q + 1 && q == p + 1))
  {
    var r' := RemoveAt(r, q);
    RemoveDistinct(r.items, q);
    IndexUnique(r'.items, if p < q then p else p - 1);
  }

  lemma UndercutAt<T>(r: Ring<T>, q: nat, p: nat)
    requires Proper(r) && q < |r.items| && p < |r.items| && p != q
    ensures Undercuts(r, Take(r.items[q]), r.items[p]) <==> r.cursor == q + 1 && q == p + 1
  {
    if 0 < r.cursor {
      IndexUnique(r.items, q);
      IndexUnique(r.items, r.cursor - 1);
    }
    if 2 <= r.cursor {
      IndexUnique(r.items, p);
      IndexUnique(r.items, r.cursor - 2);
    }
  }

  lemma PlaceAfterTake<T>(r: Ring<T>, x: T, y: T)
    requires Proper(r) && y in r.items && x in r.items && x != y
    ensures var r' := RemoveAt(r, IndexOf(r.items, x));
      && Proper(r') && y in r'.items && Place(r', y) == Place(r, y) - (if Clears(r, Take(x), y) then 1 else 0)
      && (On(r', y) <==> On(r, y) || Undercuts(r, Take(x), y))
  {
    hide RemoveAt, Undercuts, VisitOf, On, Distinct;
    var p, q := IndexOf(r.items, y), IndexOf(r.items, x);
    RemovedAt(r, q, p);
    UndercutAt(r, q, p);
    PlaceIsVisit(r, y);
    PlaceIsVisit(RemoveAt(r, q), y);
  }

  lemma AdvanceProper<T>(r: Ring<T>)
    requires Proper(r) && r.items != []
    ensures Proper(Advance(r)) && Advance(r).items == r.items
  {
  }

  /** What one call that does not return `y` or take it off does to the place of `y`. */
  lemma StepPlace<T>(r: Ring<T>, c: Call<T>, y: T)
    requires Proper(r) && y in r.items && c != Take(y) && !Returns(r, c, y)
    ensures var r' := Step(r, c);
      && Proper(r') && y in r'.items
      && Place(r', y) == Place(r, y) + (if Overtakes(r, c, y) then 1 else 0) - (if Clears(r, c, y) then 1 else 0)
                         - (if c.Next? then 1 else 0)
      && (On(r', y) ==> On(r, y) || Undercuts(r, c, y))
  {
    hide Place, InsertAt, InsertEnd, RemoveAt, Advance, Distinct, Undercuts, Between;
    if c.Next? {
      PlaceIsVisit(r, y);
      PlaceAfterNext(r, y);
      AdvanceProper(r);
    } else if c.Take? {
      if c.x in r.items {
        PlaceAfterTake(r, c.x, y);
      }
    } else if Adds(r, c) {
      PlaceAfterAdd(r, c, y);
    }
  }

  // ---- every run ----

  lemma FirstReturned<T>(r: Ring<T>, cs: seq<Call<T>>)
    requires r.cursor <= |r.items| && r.items != [] && cs != [] && cs[0].Next?
    ensures Returned(r, cs) != [] && Returned(r, cs)[0] == Current(Advance(r)) && 0 < Nexts(cs)
  {
  }

  lemma LaterReturned<T>(r: Ring<T>, cs: seq<Call<T>>, y: T)
    requires Proper(r) && y in r.items && cs != [] && !Returns(r, cs[0], y)
    ensures var rest, head := Returned(Step(r, cs[0]), cs[1..]), if cs[0].Next? then 1 else 0;
      && (y in Returned(r, cs) <==> y in rest)
      && (y in rest ==> IndexOf(Returned(r, cs), y) == IndexOf(rest, y) + head)
      && Nexts(cs) == Nexts(cs[1..]) + head
  {
    hide Step;
    var rest := Returned(Step(r, cs[0]), cs[1..]);
    if cs[0].Next? {
      assert Returned(r, cs) == [Current(Advance(r))] + rest;
      assert Returned(r, cs)[1..] == rest;
    } else {
      assert Returned(r, cs) == rest;
    }
  }

  /** However the calls interleave, the turn of an item that stays on the list is exactly its place in the visiting
      order, plus the calls that overtook it, less those that cleared its way: it is returned if and only if the
      cursor is stepped more often than that, and that many items are returned before it. */
  lemma {:induction false} TurnExactly<T>(r: Ring<T>, cs: seq<Call<T>>, y: T)
    requires Proper(r) && y in r.items && Take(y) !in cs
    ensures var turn := Place(r, y) + Delays(r, cs, y) - Gains(r, cs, y);
      && 0 <= turn
      && (y in Returned(r, cs) <==> turn < Nexts(cs))
      && (y in Returned(r, cs) ==> IndexOf(Returned(r, cs), y) == turn)
    decreases |cs|
  {
    hide Place, InsertAt, InsertEnd, RemoveAt, Advance, Distinct, On, Undercuts, Overtakes, Clears;
    if cs != [] {
      if Returns(r, cs[0], y) {
        PlaceIsVisit(r, y);
        FirstReturned(r, cs);
      } else {
        assert cs[0] in cs;
        StepPlace(r, cs[0], y);
        TurnExactly(Step(r, cs[0]), cs[1..], y);
        LaterReturned(r, cs, y);
      }
    }
  }

  /** An item that stays is returned within its place if and only if no more calls overtake it than clear its way. */
  lemma WithinPlaceExactly<T>(r: Ring<T>, cs: seq<Call<T>>, y: T)
    requires Proper(r) && y in r.items && Take(y) !in cs && Place(r, y) < Nexts(cs)
    ensures (exists i :: 0 <= i <= Place(r, y) && i < |Returned(r, cs)| && Returned(r, cs)[i] == y)
       <==> Delays(r, cs, y) <= Gains(r, cs, y)
  {
    hide Place, Returned, Delays, Gains, Distinct;
    TurnExactly(r, cs, y);
    var out := Returned(r, cs);
    forall i | 0 <= i <= Place(r, y) && i < |out| && out[i] == y
      ensures IndexOf(out, y) <= i
    {
    }
  }

  lemma NotOvertaken<T>(r: Ring<T>, c: Call<T>, y: T)
    requires Proper(r) && y in r.items && !On(r, y) && !c.AddAt?
    ensures !Overtakes(r, c, y)
  {
    if Adds(r, c) {
      AddLastOvertakes(r, c.x, y);
    }
  }

  /** While nothing is put in at a slot, an item the cursor is not on is never overtaken unless it is undercut. */
  lemma {:induction false} NoDelay<T>(r: Ring<T>, cs: seq<Call<T>>, y: T)
    requires Proper(r) && y in r.items && Take(y) !in cs && !On(r, y) && !EverUndercut(r, cs, y)
    requires forall c | c in cs :: !c.AddAt?
    ensures Delays(r, cs, y) == 0
    decreases |cs|
  {
    hide Place, InsertAt, InsertEnd, RemoveAt, Advance, Distinct, On, Undercuts, Overtakes;
    if cs != [] && !Returns(r, cs[0], y) {
      assert cs[0] in cs;
      StepPlace(r, cs[0], y);
      NotOvertaken(r, cs[0], y);
      NoDelay(Step(r, cs[0]), cs[1..], y);
    }
  }

  /** So it is returned within its place, however many items are put in before the cursor and taken off meanwhile. */
  lemma FairWithinPlace<T>(r: Ring<T>, cs: seq<Call<T>>, y: T)
    requires Proper(r) && y in r.items && Take(y) !in cs && !On(r, y) && !EverUndercut(r, cs, y)
    requires (forall c | c in cs :: !c.AddAt?) && Place(r, y) < Nexts(cs)
    ensures exists i :: 0 <= i <= Place(r, y) && i < |Returned(r, cs)| && Returned(r, cs)[i] == y
  {
    NoDelay(r, cs, y);
    WithinPlaceExactly(r, cs, y);
  }

  // ---- items passed over ----

  lemma Twice<T>(r: Ring<T>, cs: seq<Call<T>>)
    requires r.cursor <= |r.items| && |cs| == 2 && !cs[0].Next? && cs[1].Next? && Step(r, cs[0]).items != []
    ensures Returned(r, cs) == [Current(Advance(Step(r, cs[0])))]
  {
    hide Step;
    var s := Step(r, cs[0]);
    assert cs[1..][0] == cs[1] && cs[1..][1..] == [];
    assert Returned(s, cs[1..]) == [Current(Advance(s))] + Returned(Step(s, cs[1]), []);
  }

  lemma NextOvertakesNone<T>(r: Ring<T>, c: Call<T>, y: T)
    requires c.Next?
    ensures !Overtakes(r, c, y)
  {
  }

  lemma DelaysTwice<T>(r: Ring<T>, cs: seq<Call<T>>, y: T)
    requires r.cursor <= |r.items| && |cs| == 2 && !cs[0].Next? && cs[1].Next?
    ensures Delays(r, cs, y) == if Overtakes(r, cs[0], y) then 1 else 0
  {
    hide Step, Overtakes;
    var s := Step(r, cs[0]);
    assert cs[1..][0] == cs[1] && cs[1..][1..] == [];
    NextOvertakesNone(s, cs[1], y);
    if !Returns(s, cs[1], y) {
      assert Delays(s, cs[1..], y) == 0 + Delays(Step(s, cs[1]), [], y);
    }
  }

  lemma {:induction false} GainsOfAdds<T>(r: Ring<T>, cs: seq<Call<T>>, y: T)
    requires r.cursor <= |r.items| && forall c | c in cs :: !c.Take?
    ensures Gains(r, cs, y) == 0
    decreases |cs|
  {
    if cs != [] {
      assert cs[0] in cs;
      GainsOfAdds(Step(r, cs[0]), cs[1..], y);
    }
  }

  /** The item that is next is passed over when one is put in at a slot between it and the cursor. */
  lemma SlotPassesOver<T>(x: T, y: T)
    requires x != y
    ensures var r, cs := Ring([y], 0), [AddAt(x, 0), Next];
      Place(r, y) == 0 && !On(r, y) && Delays(r, cs, y) == 1 && Returned(r, cs) == [x]
  {
    var r, cs := Ring([y], 0), [AddAt(x, 0), Next];
    assert Step(r, cs[0]) == Ring([x, y], 0);
    Twice(r, cs);
    assert Overtakes(r, cs[0], y);
    DelaysTwice(r, cs, y);
  }

  /** So is one the cursor is on, when another goes in before the cursor. */
  lemma CursorPassesOver<T>(x: T, y: T)
    requires x != y
    ensures var r, cs := Ring([y], 1), [AddLast(x), Next];
      Place(r, y) == 0 && On(r, y) && Delays(r, cs, y) == 1 && Returned(r, cs) == [x]
  {
    var r, cs := Ring([y], 1), [AddLast(x), Next];
    assert Step(r, cs[0]) == Ring([x, y], 2);
    Twice(r, cs);
    assert Overtakes(r, cs[0], y);
    DelaysTwice(r, cs, y);
  }

  /** And one the cursor falls back on, because the item after it is taken off, before another goes in there. */
  lemma UndercutPassedOver<T>(x: T, y: T, z: T)
    requires x != y && y != z && x != z
    ensures var r, cs := Ring([y, z], 2), [Take(z), AddLast(x), Next];
      && Place(r, y) == 0 && !On(r, y) && EverUndercut(r, cs, y)
      && Delays(r, cs, y) == 1 && Gains(r, cs, y) == 0 && Returned(r, cs) == [x]
  {
    var r, cs := Ring([y, z], 2), [Take(z), AddLast(x), Next];
    var s := Step(r, cs[0]);
    assert IndexOf(r.items, z) == 1 by {
      assert r.items[1..][0] == z;
    }
    assert s == Ring([y], 1);
    assert cs[1..] == [AddLast(x), Next];
    CursorPassesOver(x, y);
    GainsOfAdds(s, cs[1..], y);
  }
}
