/** The scheduler list as a value: its items in ring order and the place of the roaming cursor. */
module CursorRing {
  import opened Seqs

  /** `items` runs from the item after the end marker to the one before it. The cursor is on the end
      marker when `cursor` is 0 and on `items[cursor - 1]` otherwise. */
  datatype Ring<T> = Ring(items: seq<T>, cursor: nat)

  /** The order in which the items will be visited: from just after the cursor, once round. */
  function Visits<T>(r: Ring<T>): (v: seq<T>)
    requires r.cursor <= |r.items|
    ensures |v| == |r.items|
  {
    r.items[r.cursor..] + r.items[..r.cursor]
  }

  /** Put `x` before item `p`; a cursor on or after that item stays on its item. */
  function InsertAt<T>(r: Ring<T>, p: nat, x: T): Ring<T>
    requires p <= |r.items|
  {
    Ring(r.items[..p] + [x] + r.items[p..], if p < r.cursor then r.cursor + 1 else r.cursor)
  }

  /** Put `x` just before the cursor. */
  function InsertEnd<T>(r: Ring<T>, x: T): Ring<T>
    requires r.cursor <= |r.items|
  {
    InsertAt(r, if r.cursor == 0 then |r.items| else r.cursor - 1, x)
  }

  /** Take out item `p`; a cursor on it moves back to the item before, or to the end marker. */
  function RemoveAt<T>(r: Ring<T>, p: nat): Ring<T>
    requires p < |r.items|
  {
    Ring(r.items[..p] + r.items[p + 1..], if p < r.cursor then r.cursor - 1 else r.cursor)
  }

  /** Step the cursor to the next item, passing over the end marker. */
  function Advance<T>(r: Ring<T>): Ring<T>
    requires r.cursor <= |r.items| && r.items != []
  {
    r.(cursor := if r.cursor < |r.items| then r.cursor + 1 else 1)
  }

  /** The item the cursor is on. */
  function Current<T>(r: Ring<T>): T
    requires 0 < r.cursor <= |r.items|
  {
    r.items[r.cursor - 1]
  }

  lemma InsertAtItems<T>(r: Ring<T>, p: nat, x: T)
    requires p <= |r.items|
    ensures InsertAt(r, p, x).items == r.items[..p] + [x] + r.items[p..]
  {
  }

  // ---- the cursor and the visiting order ----

  /** Advancing visits the first item of the order and sends it to the back. */
  lemma AdvanceRotates<T>(r: Ring<T>)
    requires r.cursor <= |r.items| && r.items != []
    ensures Current(Advance(r)) == Visits(r)[0]
    ensures Visits(Advance(r)) == Visits(r)[1..] + [Visits(r)[0]]
  {
    if r.cursor == |r.items| {
      assert Visits(r) == r.items;
    } else {
      assert r.items[r.cursor..] == [r.items[r.cursor]] + r.items[r.cursor + 1..];
      assert r.items[..r.cursor + 1] == r.items[..r.cursor] + [r.items[r.cursor]];
    }
  }

  /** Where item `p` comes in the visiting order. */
  function VisitOf<T>(r: Ring<T>, p: nat): nat
    requires r.cursor <= |r.items| && p < |r.items|
  {
    if p < r.cursor then |r.items| - r.cursor + p else p - r.cursor
  }

  lemma Middle<T>(a: seq<T>, x: T, b: seq<T>)
    ensures var s := a + [x] + b; s[..|a|] == a && s[|a|] == x && s[|a| + 1..] == b
  {
  }

  lemma RemoveBehind<T>(r: Ring<T>, p: nat)
    requires p < r.cursor <= |r.items|
    ensures var c, s := r.cursor, r.items;
      && Visits(r) == (s[c..] + s[..p]) + [s[p]] + s[p + 1..c]
      && Visits(RemoveAt(r, p)) == (s[c..] + s[..p]) + s[p + 1..c]
  {
    assert r.items[..r.cursor] == r.items[..p] + [r.items[p]] + r.items[p + 1..r.cursor];
    assert RemoveAt(r, p).items[r.cursor - 1..] == r.items[r.cursor..];
    assert RemoveAt(r, p).items[..r.cursor - 1] == r.items[..p] + r.items[p + 1..r.cursor];
  }

  lemma RemoveAhead<T>(r: Ring<T>, p: nat)
    requires r.cursor <= p < |r.items|
    ensures var c, s := r.cursor, r.items;
      && Visits(r) == s[c..p] + [s[p]] + (s[p + 1..] + s[..c])
      && Visits(RemoveAt(r, p)) == s[c..p] + (s[p + 1..] + s[..c])
  {
    assert r.items[r.cursor..] == r.items[r.cursor..p] + [r.items[p]] + r.items[p + 1..];
    assert RemoveAt(r, p).items[r.cursor..] == r.items[r.cursor..p] + r.items[p + 1..];
    assert RemoveAt(r, p).items[..r.cursor] == r.items[..r.cursor];
  }

  /** Removal deletes that one item from the visiting order, also when the cursor is on it. */
  lemma RemoveDeletes<T>(r: Ring<T>, p: nat)
    requires r.cursor <= |r.items| && p < |r.items|
    ensures RemoveAt(r, p).cursor <= |RemoveAt(r, p).items|
    ensures var v := VisitOf(r, p);
      Visits(r)[v] == r.items[p] && Visits(RemoveAt(r, p)) == Visits(r)[..v] + Visits(r)[v + 1..]
  {
    hide Visits;
    var c, s := r.cursor, r.items;
    if p < c {
      RemoveBehind(r, p);
      Middle(s[c..] + s[..p], s[p], s[p + 1..c]);
    } else {
      RemoveAhead(r, p);
      Middle(s[c..p], s[p], s[p + 1..] + s[..c]);
    }
  }

  /** Taking out an item just put in restores the ring, cursor included. */
  lemma RemoveUndoesInsert<T>(r: Ring<T>, p: nat, x: T)
    requires r.cursor <= |r.items| && p <= |r.items|
    ensures InsertAt(r, p, x).items[p] == x && RemoveAt(InsertAt(r, p, x), p) == r
  {
  }

  /** Insertion at any place adds one item to the visiting order and changes nothing else in it. */
  lemma InsertAdds<T>(r: Ring<T>, p: nat, x: T)
    requires r.cursor <= |r.items| && p <= |r.items|
    ensures var r' := InsertAt(r, p, x);
      r'.cursor <= |r'.items| && var v := VisitOf(r', p);
      Visits(r')[v] == x && Visits(r) == Visits(r')[..v] + Visits(r')[v + 1..]
  {
    var r' := InsertAt(r, p, x);
    RemoveDeletes(r', p);
    RemoveUndoesInsert(r, p, x);
  }

  /** The new item goes last in the visiting order when the cursor is on the end marker, and just before
      the cursor's own item when it is on one. */
  lemma InsertEndVisits<T>(r: Ring<T>, x: T)
    requires r.cursor <= |r.items|
    ensures InsertEnd(r, x).cursor <= |r.items| + 1
    ensures Visits(InsertEnd(r, x)) ==
      if r.cursor == 0 then Visits(r) + [x] else Visits(r)[..|r.items| - 1] + [x, Current(r)]
  {
    var c, s := r.cursor, r.items;
    if 0 < c {
      assert InsertEnd(r, x) == Ring(s[..c - 1] + [x] + s[c - 1..], c + 1);
      assert s[c - 1..] == [s[c - 1]] + s[c..];
      assert s[..c] == s[..c - 1] + [s[c - 1]];
    }
  }

  /** The promise that a new item is visited after all others holds exactly when the cursor is on the end
      marker. */
  lemma InsertEndIsLast<T>(r: Ring<T>, x: T)
    requires r.cursor <= |r.items| && x !in r.items
    ensures Visits(InsertEnd(r, x))[|r.items|] == x <==> r.cursor == 0
  {
    InsertEndVisits(r, x);
  }

  /** It fails on a one-item list whose item has just been visited. */
  lemma InsertEndNotLast()
    ensures Visits(InsertEnd(Advance(Ring([0], 0)), 1)) == [1, 0]
  {
    InsertEndVisits(Advance(Ring([0], 0)), 1);
  }

  function AdvanceBy<T>(r: Ring<T>, k: nat): Ring<T>
    requires r.cursor <= |r.items| && r.items != []
    ensures AdvanceBy(r, k).items == r.items && AdvanceBy(r, k).cursor <= |r.items|
    decreases k
  {
    if k == 0 then r else Advance(AdvanceBy(r, k - 1))
  }

  lemma RotateOnce<T>(v: seq<T>, k: nat)
    requires k < |v|
    ensures var w := v[k..] + v[..k]; w[0] == v[k] && w[1..] + [w[0]] == v[k + 1..] + v[..k + 1]
  {
    assert v[..k + 1] == v[..k] + [v[k]];
  }

  lemma {:induction false} AdvanceByRotates<T>(r: Ring<T>, k: nat)
    requires r.cursor <= |r.items| && r.items != [] && k <= |r.items|
    ensures Visits(AdvanceBy(r, k)) == Visits(r)[k..] + Visits(r)[..k]
    decreases k
  {
    if 0 < k {
      AdvanceByRotates(r, k - 1);
      AdvanceRotates(AdvanceBy(r, k - 1));
      hide Visits, Advance;
      RotateOnce(Visits(r), k - 1);
    }
  }

  /** Round robin: call `k` of a round returns item `k` of the visiting order. */
  lemma RoundRobin<T>(r: Ring<T>, k: nat)
    requires r.cursor <= |r.items| && 0 < k <= |r.items|
    ensures 0 < AdvanceBy(r, k).cursor && Current(AdvanceBy(r, k)) == Visits(r)[k - 1]
  {
    AdvanceByRotates(r, k - 1);
    AdvanceRotates(AdvanceBy(r, k - 1));
    hide Visits;
    RotateOnce(Visits(r), k - 1);
  }

  /** The visiting order holds each item of the list once. */
  lemma VisitsAll<T>(r: Ring<T>)
    requires r.cursor <= |r.items|
    ensures multiset(Visits(r)) == multiset(r.items)
  {
    assert r.items == r.items[..r.cursor] + r.items[r.cursor..];
  }

  /** A round of as many calls as there are items ends where it began. */
  lemma FullRound<T>(r: Ring<T>)
    requires r.cursor <= |r.items| && r.items != []
    ensures Visits(AdvanceBy(r, |r.items|)) == Visits(r)
  {
    AdvanceByRotates(r, |r.items|);
    hide Visits, AdvanceBy;
  }

  /** After an insertion at the end into a list of n items the new item is returned on call n when the
      cursor was on an item, and on call n + 1 when it was on the end marker. */
  lemma NewItemTurn<T>(r: Ring<T>, x: T)
    requires r.cursor <= |r.items|
    ensures var turn := if r.cursor == 0 then |r.items| + 1 else |r.items|;
      && 0 < AdvanceBy(InsertEnd(r, x), turn).cursor
      && Current(AdvanceBy(InsertEnd(r, x), turn)) == x
  {
    InsertEndVisits(r, x);
    RoundRobin(InsertEnd(r, x), if r.cursor == 0 then |r.items| + 1 else |r.items|);
  }

  // ---- sorted insertion ----

  /** The place of a value in a list of values: before the first greater one. */
  function Slot(values: seq<nat>, v: nat): (p: nat)
    ensures p <= |values|
    ensures forall i | 0 <= i < p :: values[i] <= v
    ensures p < |values| ==> v < values[p]
  {
    if values == [] || v < values[0] then 0 else 1 + Slot(values[1..], v)
  }

  lemma SlotUnique(values: seq<nat>, v: nat, p: nat)
    requires p <= |values|
    requires forall i | 0 <= i < p :: values[i] <= v
    requires p < |values| ==> v < values[p]
    ensures Slot(values, v) == p
  {
  }

  ghost predicate Sorted(values: seq<nat>) {
    forall i, j | 0 <= i < j < |values| :: values[i] <= values[j]
  }

  /** An item of a priority list: its value and its identity. */
  datatype Entry<T> = Entry(value: nat, item: T)

  function Values<T>(s: seq<Entry<T>>): (vs: seq<nat>)
    ensures |vs| == |s| && forall i | 0 <= i < |s| :: vs[i] == s[i].value
  {
    seq(|s|, i requires 0 <= i < |s| => s[i].value)
  }

  function InsertSorted<T>(s: seq<Entry<T>>, e: Entry<T>): seq<Entry<T>> {
    var p := Slot(Values(s), e.value);
    s[..p] + [e] + s[p..]
  }

  function InsertAll<T>(s: seq<Entry<T>>): seq<Entry<T>> {
    if s == [] then [] else InsertSorted(InsertAll(s[..|s| - 1]), s[|s| - 1])
  }

  /** The entries of value `v`, in order. */
  function WithValue<T>(s: seq<Entry<T>>, v: nat): seq<Entry<T>> {
    if s == [] then [] else (if s[0].value == v then [s[0]] else []) + WithValue(s[1..], v)
  }

  /** `t` is the stable sort of `s`: in order of value, and entries of equal value as `s` has them. */
  ghost predicate StableSortOf<T>(t: seq<Entry<T>>, s: seq<Entry<T>>) {
    Sorted(Values(t)) && forall v :: WithValue(t, v) == WithValue(s, v)
  }

  lemma WithValueStep<T>(e: Entry<T>, s: seq<Entry<T>>, v: nat)
    ensures WithValue([e] + s, v) == (if e.value == v then [e] else []) + WithValue(s, v)
  {
    assert ([e] + s)[1..] == s;
  }

  lemma {:induction false} NoneWithValue<T>(s: seq<Entry<T>>, v: nat)
    requires forall i | 0 <= i < |s| :: s[i].value != v
    ensures WithValue(s, v) == []
  {
    if s != [] {
      NoneWithValue(s[1..], v);
    }
  }

  lemma {:induction false} WithValueConcat<T>(s: seq<Entry<T>>, t: seq<Entry<T>>, v: nat)
    ensures WithValue(s + t, v) == WithValue(s, v) + WithValue(t, v)
  {
    hide WithValue;
    if s == [] {
      NoneWithValue(s, v);
      assert s + t == t;
    } else {
      WithValueConcat(s[1..], t, v);
      WithValueStep(s[0], s[1..] + t, v);
      WithValueStep(s[0], s[1..], v);
      assert [s[0]] + (s[1..] + t) == s + t && [s[0]] + s[1..] == s;
    }
  }

  lemma InOrder(vs: seq<nat>, v: nat, p: nat)
    requires Sorted(vs) && p <= |vs|
    requires forall i | 0 <= i < p :: vs[i] <= v
    requires forall i | p <= i < |vs| :: v <= vs[i]
    ensures Sorted(vs[..p] + [v] + vs[p..])
  {
  }

  lemma SlotSorts(vs: seq<nat>, v: nat)
    requires Sorted(vs)
    ensures Sorted(vs[..Slot(vs, v)] + [v] + vs[Slot(vs, v)..])
  {
    hide Slot;
    var p := Slot(vs, v);
    forall i | p <= i < |vs|
      ensures v <= vs[i]
    {
      assert p < i ==> vs[p] <= vs[i];
    }
    InOrder(vs, v, p);
  }

  lemma InsertSortedSorts<T>(s: seq<Entry<T>>, e: Entry<T>)
    requires Sorted(Values(s))
    ensures Sorted(Values(InsertSorted(s, e)))
  {
    hide Sorted;
    var vs, p := Values(s), Slot(Values(s), e.value);
    SlotSorts(vs, e.value);
    assert Values(InsertSorted(s, e)) == vs[..p] + [e.value] + vs[p..];
  }

  /** From the slot of a value on, all values are greater. */
  lemma AfterSlot<T>(s: seq<Entry<T>>, v: nat)
    requires Sorted(Values(s))
    ensures forall i | Slot(Values(s), v) <= i < |s| :: v < s[i].value
  {
    var p := Slot(Values(s), v);
    forall i | p <= i < |s|
      ensures v < s[i].value
    {
      assert Values(s)[p] <= Values(s)[i];
    }
  }

  lemma WithValueAround<T>(a: seq<Entry<T>>, e: Entry<T>, b: seq<Entry<T>>, v: nat)
    ensures WithValue(a + [e] + b, v) == WithValue(a, v) + (if e.value == v then [e] else []) + WithValue(b, v)
  {
    WithValueConcat(a + [e], b, v);
    WithValueConcat(a, [e], v);
    WithValueStep(e, [], v);
    assert [e] + [] == [e];
  }

  /** The new entry comes after the entries of its value; the entries of other values are as before. */
  lemma InsertSortedStable<T>(s: seq<Entry<T>>, e: Entry<T>, v: nat)
    requires Sorted(Values(s))
    ensures WithValue(InsertSorted(s, e), v) == WithValue(s, v) + if e.value == v then [e] else []
  {
    hide Sorted, Slot, WithValue;
    var p := Slot(Values(s), e.value);
    AfterSlot(s, e.value);
    WithValueConcat(s[..p], s[p..], v);
    assert s == s[..p] + s[p..];
    WithValueAround(s[..p], e, s[p..], v);
    if e.value == v {
      NoneWithValue(s[p..], v);
    }
  }

  /** Any run of sorted insertions into an empty list gives the stable sort of what was inserted. */
  lemma {:induction false} InsertAllSorts<T>(s: seq<Entry<T>>)
    ensures StableSortOf(InsertAll(s), s)
  {
    if s != [] {
      var front, last := s[..|s| - 1], s[|s| - 1];
      InsertAllSorts(front);
      InsertSortedSorts(InsertAll(front), last);
      assert s == front + [last] && [last][1..] == [];
      forall v
        ensures WithValue(InsertAll(s), v) == WithValue(s, v)
      {
        InsertSortedStable(InsertAll(front), last, v);
        WithValueConcat(front, [last], v);
      }
    }
  }

  lemma {:induction false} WithValueMember<T>(s: seq<Entry<T>>, v: nat)
    ensures WithValue(s, v) != [] ==> WithValue(s, v)[0] in s && WithValue(s, v)[0].value == v
    ensures forall i | 0 <= i < |s| && s[i].value == v :: WithValue(s, v) != []
  {
    if s != [] {
      WithValueMember(s[1..], v);
      forall i | 0 <= i < |s| && s[i].value == v
        ensures WithValue(s, v) != []
      {
        assert 0 < i ==> s[i] == s[1..][i - 1];
      }
    }
  }

  lemma FirstKept<T>(s: seq<Entry<T>>)
    requires s != []
    ensures WithValue(s, s[0].value) != [] && WithValue(s, s[0].value)[0] == s[0]
  {
  }

  lemma WithValueTail<T>(s: seq<Entry<T>>, v: nat)
    requires s != []
    ensures WithValue(s[1..], v) == if s[0].value == v then WithValue(s, v)[1..] else WithValue(s, v)
  {
  }

  lemma LeastFirst<T>(a: seq<Entry<T>>, b: seq<Entry<T>>)
    requires Sorted(Values(b)) && a != [] && b != []
    requires forall v :: WithValue(a, v) == WithValue(b, v)
    ensures b[0].value <= a[0].value
  {
    var v := a[0].value;
    WithValueMember(a, v);
    WithValueMember(b, v);
    var e := WithValue(b, v)[0];
    var i :| 0 <= i < |b| && b[i] == e;
    assert 0 < i ==> Values(b)[0] <= Values(b)[i];
  }

  /** A list has only one stable sort. */
  lemma {:induction false} StableSortUnique<T>(a: seq<Entry<T>>, b: seq<Entry<T>>)
    requires Sorted(Values(a)) && Sorted(Values(b))
    requires forall v :: WithValue(a, v) == WithValue(b, v)
    ensures a == b
  {
    if a == [] {
      if b != [] {
        FirstKept(b);
      }
    } else if b == [] {
      FirstKept(a);
    } else {
      LeastFirst(a, b);
      LeastFirst(b, a);
      FirstKept(a);
      FirstKept(b);
      forall v
        ensures WithValue(a[1..], v) == WithValue(b[1..], v)
      {
        WithValueTail(a, v);
        WithValueTail(b, v);
      }
      StableSortUnique(a[1..], b[1..]);
      assert a == [a[0]] + a[1..] && b == [b[0]] + b[1..];
    }
  }
}
