/** The scheduler list: circular, doubly linked through its items, with an end marker and a cursor. */
module SchedulerList {
  import opened CursorRing
  import opened Seqs

  const MAX_DELAY: nat := 0xffff_ffff

  /** A 32-bit tick count. */
  type Tick = x: nat | x <= 0xffff_ffff

  /** An item, and also the end marker of a list, which uses the first three fields only. */
  class ListItem {
    var value: Tick
    var next: ListItem?
    var prev: ListItem?
    var owner: int
    var container: List?

    constructor (value: Tick, owner: int)
      ensures this.value == value && this.owner == owner && container == null
    {
      this.value, this.owner := value, owner;
      next, prev, container := null, null, null;
    }

    method InitialiseItem()
      modifies this`container
      ensures container == null
    {
      container := null;
    }
  }

  /** The index after `k` on a ring of `n` nodes. */
  function After(k: nat, n: nat): nat {
    if k + 1 == n then 0 else k + 1
  }

  /** The index before `k` on a ring of `n` nodes. */
  function Before(k: nat, n: nat): nat
    requires k < n
  {
    if k == 0 then n - 1 else k - 1
  }

  /** Each node's successor and predecessor are its neighbours on the ring `s`. */
  ghost predicate Linked(s: seq<ListItem>)
    reads s`next, s`prev
  {
    && (forall k {:trigger s[k].next} | 0 <= k < |s| :: s[k].next == s[After(k, |s|)])
    && (forall k {:trigger s[k].prev} | 0 <= k < |s| :: s[k].prev == s[Before(k, |s|)])
  }

  /** Linking `x` in between two neighbours, and touching no other link, makes the ring with `x` there. */
  twostate lemma LinkedIn(s: seq<ListItem>, new p: nat, new x: ListItem)
    requires 0 < p <= |s| && Distinct(s) && x !in s && old(Linked(s))
    requires var succ := s[if p == |s| then 0 else p];
      && x.next == succ && x.prev == s[p - 1] && s[p - 1].next == x && succ.prev == x
      && (forall k {:trigger s[k].next} | 0 <= k < |s| && k != p - 1 :: s[k].next == old(s[k].next))
      && (forall k {:trigger s[k].prev} | 0 <= k < |s| && s[k] != succ :: s[k].prev == old(s[k].prev))
    ensures Linked(s[..p] + [x] + s[p..])
  {
    var t := s[..p] + [x] + s[p..];
    forall k | 0 <= k < |t|
      ensures t[k].next == t[After(k, |t|)]
    {
      if k != p {
        assert t[k] == s[if k < p then k else k - 1];
      }
    }
    forall k | 0 <= k < |t|
      ensures t[k].prev == t[Before(k, |t|)]
    {
      if k != p {
        assert t[k] == s[if k < p then k else k - 1];
      }
    }
  }

  /** Unlinking one node that is not the first leaves the ring without it. */
  twostate lemma LinkedOut(s: seq<ListItem>, new p: nat)
    requires 0 < p < |s| && Distinct(s) && old(Linked(s))
    requires var succ := s[After(p, |s|)];
      && s[p - 1].next == succ && succ.prev == s[p - 1]
      && (forall k {:trigger s[k].next} | 0 <= k < |s| && k != p - 1 :: s[k].next == old(s[k].next))
      && (forall k {:trigger s[k].prev} | 0 <= k < |s| && s[k] != succ :: s[k].prev == old(s[k].prev))
    ensures Linked(s[..p] + s[p + 1..])
  {
    var t := s[..p] + s[p + 1..];
    forall k | 0 <= k < |t|
      ensures t[k].next == t[After(k, |t|)]
    {
      assert t[k] == s[if k < p then k else k + 1];
    }
    forall k | 0 <= k < |t|
      ensures t[k].prev == t[Before(k, |t|)]
    {
      var j := if k < p then k else k + 1;
      assert t[k] == s[j] && s[j].prev == if j == After(p, |s|) then s[p - 1] else s[Before(j, |s|)];
    }
  }

  ghost function EntriesOf(s: seq<ListItem>): (es: seq<Entry<ListItem>>)
    reads s`value
    ensures |es| == |s| && forall i | 0 <= i < |s| :: es[i] == Entry(s[i].value, s[i])
  {
    if s == [] then [] else [Entry(s[0].value, s[0])] + EntriesOf(s[1..])
  }

  lemma EntriesConcat(s: seq<ListItem>, t: seq<ListItem>)
    ensures EntriesOf(s + t) == EntriesOf(s) + EntriesOf(t)
  {
    hide EntriesOf;
    forall i | 0 <= i < |s + t|
      ensures EntriesOf(s + t)[i] == (EntriesOf(s) + EntriesOf(t))[i]
    {
      assert (s + t)[i] == if i < |s| then s[i] else t[i - |s|];
    }
  }

  lemma EntriesInsert(s: seq<ListItem>, p: nat, x: ListItem)
    requires p <= |s|
    ensures EntriesOf(s[..p] + [x] + s[p..]) == EntriesOf(s)[..p] + [Entry(x.value, x)] + EntriesOf(s)[p..]
  {
    EntriesConcat(s[..p] + [x], s[p..]);
    EntriesConcat(s[..p], [x]);
    EntriesConcat(s[..p], s[p..]);
    assert s == s[..p] + s[p..];
    assert EntriesOf([x]) == [Entry(x.value, x)];
  }

  /** Link `x` into the ring `s` just before the node `at`, which follows node `p - 1`. */
  method LinkBefore(at: ListItem, x: ListItem, ghost s: seq<ListItem>, ghost p: nat)
    requires Linked(s) && Distinct(s) && x !in s && 0 < p <= |s| && at == s[if p == |s| then 0 else p]
    modifies s`next, s`prev, x`next, x`prev
    ensures Linked(s[..p] + [x] + s[p..])
  {
    assert at.prev == s[p - 1];
    x.next := at;
    x.prev := at.prev;
    at.prev.next := x;
    at.prev := x;
    LinkedIn(s, p, x);
  }

  /** Link `x` into the ring `s` just after its node `it`, which is node `p - 1`. */
  method LinkAfter(it: ListItem, x: ListItem, ghost s: seq<ListItem>, ghost p: nat)
    requires Linked(s) && Distinct(s) && x !in s && 0 < p <= |s| && it == s[p - 1]
    modifies s`next, s`prev, x`next, x`prev
    ensures Linked(s[..p] + [x] + s[p..])
  {
    assert it.next == s[if p == |s| then 0 else p];
    x.next := it.next;
    x.next.prev := x;
    x.prev := it;
    it.next := x;
    LinkedIn(s, p, x);
  }

  /** Take node `p` out of the ring `s`; its own links stay as they were. */
  method Unlink(x: ListItem, ghost s: seq<ListItem>, ghost p: nat)
    requires Linked(s) && Distinct(s) && 0 < p < |s| && x == s[p]
    modifies s`next, s`prev
    ensures Linked(s[..p] + s[p + 1..])
    ensures x.next == old(x.next) && x.prev == old(x.prev) == s[p - 1]
  {
    assert x.next == s[After(p, |s|)] && x.prev == s[p - 1];
    x.next.prev := x.prev;
    x.prev.next := x.next;
    LinkedOut(s, p);
  }

  class List {
    var count: nat
    var index: ListItem
    const end: ListItem

    /** The end marker followed by the items, in ring order, and where the cursor is among them. */
    ghost var nodes: seq<ListItem>
    ghost var cursor: nat

    /** Everything but the links. */
    ghost predicate Shape()
      reads this, nodes`container, nodes`value
    {
      && nodes != [] && nodes[0] == end && Distinct(nodes)
      && (forall k | 0 < k < |nodes| :: nodes[k].container == this)
      && end.container == null && end.value == MAX_DELAY
      && cursor < |nodes| && index == nodes[cursor] && count + 1 == |nodes|
    }

    ghost predicate Valid()
      reads this, nodes`container, nodes`value, nodes`next, nodes`prev
    {
      Shape() && Linked(nodes)
    }

    ghost function Model(): (r: Ring<ListItem>)
      reads this
      ensures nodes != [] ==> r.items == nodes[1..] && r.cursor == cursor
    {
      Ring(if nodes == [] then [] else nodes[1..], cursor)
    }

    /** The items with their values, in ring order. */
    ghost function Entries(): (es: seq<Entry<ListItem>>)
      reads this, nodes`value
    {
      EntriesOf(Model().items)
    }

    constructor Initialise()
      ensures Valid() && fresh(end) && Model() == Ring([], 0)
      ensures end.value == 0xffff_ffff && index == end && end.next == end && end.prev == end && count == 0
    {
      var marker := new ListItem(MAX_DELAY, 0);
      marker.next := marker;
      marker.prev := marker;
      end := marker;
      index := marker;
      count := 0;
      nodes := [marker];
      cursor := 0;
    }

    lemma NonEmpty()
      requires Valid()
      ensures cursor < |nodes| && count + 1 == |nodes|
    {
    }

    /** The ring as a value decides every pointer: what restores it restores all links, the cursor and the
        count. */
    twostate lemma ModelDecides()
      requires old(Valid()) && Valid() && Model() == old(Model())
      ensures nodes == old(nodes) && index == old(index) && count == old(count)
      ensures forall n | n in nodes :: n.next == old(n.next) && n.prev == old(n.prev) && n.container == old(n.container)
    {
      assert nodes == [end] + Model().items;
    }

    lemma Parts()
      requires Valid()
      ensures Shape() && Linked(nodes) && Distinct(nodes) && nodes[0] == end && index == nodes[cursor]
    {
    }

    lemma InsertedModel(s: seq<ListItem>, p: nat, x: ListItem)
      requires Distinct(s) && 0 < p <= |s| && x !in s
      ensures Distinct(s[..p] + [x] + s[p..])
      ensures (s[..p] + [x] + s[p..])[1..] == s[1..][..p - 1] + [x] + s[1..][p - 1..]
    {
    }

    /** Record that `x` has been linked in as node `p`. */
    method Enter(x: ListItem, ghost p: nat)
      requires Shape() && 0 < p <= |nodes| && x !in nodes && Linked(nodes[..p] + [x] + nodes[p..])
      modifies this`count, this`nodes, this`cursor, x`container
      ensures Valid() && x.container == this && Model() == InsertAt(old(Model()), p - 1, x)
      ensures forall n :: n in nodes <==> n in old(nodes) || n == x
    {
      hide Linked;
      InsertedModel(nodes, p, x);
      x.container := this;
      count := count + 1;
      nodes := nodes[..p] + [x] + nodes[p..];
      cursor := if p <= cursor then cursor + 1 else cursor;
    }

    lemma ShapeParts()
      requires Shape()
      ensures nodes != [] && count + 1 == |nodes| && Distinct(nodes) && cursor < |nodes| && index == nodes[cursor]
    {
    }

    lemma RemovedModel(s: seq<ListItem>, p: nat)
      requires Distinct(s) && 0 < p < |s|
      ensures Distinct(s[..p] + s[p + 1..])
      ensures (s[..p] + s[p + 1..])[1..] == s[1..][..p - 1] + s[1..][p..]
    {
    }

    /** Where the nodes are after node `p` has gone, and what the cursor is on. */
    lemma RemovedNodes(s: seq<ListItem>, p: nat, c: nat)
      requires Distinct(s) && 0 < p < |s| && c < |s|
      ensures var t := s[..p] + s[p + 1..];
        && t[0] == s[0] && t[if p <= c then c - 1 else c] == (if c == p then s[p - 1] else s[c])
        && (c != p ==> s[c] != s[p])
        && forall k | 0 <= k < |t| :: t[k] != s[p] && t[k] == s[if k < p then k else k + 1]
    {
    }

    /** All but the links is right again after node `p` has gone. */
    twostate lemma LeftShape(new x: ListItem, new p: nat)
      requires old(Shape()) && 0 < p < |old(nodes)| && x == old(nodes)[p]
      requires nodes == old(nodes)[..p] + old(nodes)[p + 1..] && count == old(count) - 1
      requires cursor == if p <= old(cursor) then old(cursor) - 1 else old(cursor)
      requires index == if old(index) == x then old(nodes)[p - 1] else old(index)
      requires forall n | n in old(nodes) && n != x :: n.container == old(n.container) && n.value == old(n.value)
      ensures Shape()
    {
      var s := old(nodes);
      RemovedModel(s, p);
      RemovedNodes(s, p, old(cursor));
      hide Distinct;
      forall k | 0 < k < |nodes|
        ensures nodes[k].container == this
      {
        assert nodes[k] == s[if k < p then k else k + 1];
      }
    }

    twostate lemma LeftModel(new p: nat)
      requires 0 < p < |old(nodes)| && nodes == old(nodes)[..p] + old(nodes)[p + 1..]
      requires cursor == if p <= old(cursor) then old(cursor) - 1 else old(cursor)
      ensures Model() == RemoveAt(old(Model()), p - 1)
    {
      var s := old(nodes);
      assert nodes[1..] == s[1..][..p - 1] + s[1..][p..];
    }

    /** Record that node `p` has been unlinked. */
    method Leave(x: ListItem, ghost p: nat)
      requires Shape() && 0 < p < |nodes| && x == nodes[p] && x.prev == nodes[p - 1]
      requires Linked(nodes[..p] + nodes[p + 1..])
      modifies this, x`container
      ensures Valid() && x.container == null && Model() == RemoveAt(old(Model()), p - 1)
      ensures nodes == old(nodes)[..p] + old(nodes)[p + 1..]
    {
      hide Shape, Linked, Distinct, Model, RemoveAt;
      ShapeParts();
      if index == x {
        index := x.prev;
      }
      x.container := null;
      count := count - 1;
      nodes := nodes[..p] + nodes[p + 1..];
      cursor := if p <= cursor then cursor - 1 else cursor;
      LeftShape(x, p);
      LeftModel(p);
    }

    /** Put an item just before the cursor. */
    method InsertEnd(x: ListItem)
      requires Valid() && x !in nodes
      modifies this, nodes`next, nodes`prev, x`next, x`prev, x`container
      ensures Valid() && Model() == CursorRing.InsertEnd(old(Model()), x) && x.container == this
      ensures forall n :: n in nodes <==> n in old(nodes) || n == x
    {
      hide Valid, Shape, Linked, Distinct, Model, InsertAt;
      NonEmpty();
      Parts();
      ghost var p := if cursor == 0 then |nodes| else cursor;
      LinkBefore(index, x, nodes, p);
      Enter(x, p);
    }

    /** The place a value takes among the items: before the first greater one. */
    ghost function SlotOf(v: Tick): (p: nat)
      requires Valid()
      reads this, nodes`container, nodes`value, nodes`next, nodes`prev
      ensures p <= |Model().items| && p == Slot(Values(Entries()), v)
    {
      Slot(Values(Entries()), v)
    }

    /** Walk to the last node before which `v` may not go. The end marker stops the walk on any ring. */
    method FindSlot(v: Tick) returns (it: ListItem, ghost p: nat)
      requires Valid()
      ensures p == SlotOf(v) && it == nodes[p]
    {
      p := 0;
      if v == MAX_DELAY {
        it := end.prev;
        p := |nodes| - 1;
      } else {
        it := end;
        while it.next.value <= v
          invariant p < |nodes| && it == nodes[p]
          invariant forall k | 0 < k <= p :: nodes[k].value <= v
          decreases |nodes| - p
        {
          it := it.next;
          p := p + 1;
        }
      }
      SlotUnique(Values(Entries()), v, p);
    }

    twostate lemma EntriesInserted(new p: nat, x: ListItem)
      requires old(Valid()) && Valid() && p == old(Slot(Values(Entries()), x.value)) && x.value == old(x.value)
      requires Model() == InsertAt(old(Model()), p, x) && forall y | y in old(nodes) :: y.value == old(y.value)
      ensures Entries() == InsertSorted(old(Entries()), Entry(x.value, x))
    {
      hide Linked, Valid, Shape, InsertAt;
      var s := old(Model()).items;
      InsertAtItems(old(Model()), p, x);
      EntriesInsert(s, p, x);
      assert EntriesOf(s) == old(EntriesOf(s));
    }

    /** Put an item in order of value, after the items of its own value. */
    method Insert(x: ListItem)
      requires Valid() && x !in nodes
      modifies this, nodes`next, nodes`prev, x`next, x`prev, x`container
      ensures Valid() && Model() == InsertAt(old(Model()), old(SlotOf(x.value)), x) && x.container == this
      ensures Entries() == InsertSorted(old(Entries()), Entry(x.value, x))
      ensures forall n :: n in nodes <==> n in old(nodes) || n == x
    {
      hide Entries, Values, InsertSorted, Valid, Shape, Linked, Distinct, Model, InsertAt, SlotOf;
      NonEmpty();
      Parts();
      var it;
      ghost var p;
      it, p := FindSlot(x.value);
      LinkAfter(it, x, nodes, p + 1);
      Enter(x, p + 1);
      EntriesInserted(p, x);
    }

    /** Step the cursor, passing over the end marker, and return the owner of the item it comes to. */
    method NextOwner() returns (owner: int)
      requires Valid() && count > 0
      modifies this`index, this`cursor
      ensures Valid() && Model() == Advance(old(Model())) && owner == Current(Model()).owner
    {
      index := index.next;
      cursor := After(cursor, |nodes|);
      if index == end {
        index := index.next;
        cursor := 1;
      }
      owner := index.owner;
    }

    lemma RemovedMembers(s: seq<ListItem>, p: nat)
      requires Distinct(s) && 0 < p < |s|
      ensures forall n :: n in s[..p] + s[p + 1..] <==> n in s && n != s[p]
    {
      forall n
        ensures n in s[..p] + s[p + 1..] <==> n in s && n != s[p]
      {
        assert s == s[..p] + [s[p]] + s[p + 1..];
      }
    }

    /** Take node `p` off the list. */
    method TakeOut(x: ListItem, ghost p: nat)
      requires Valid() && 0 < p < |nodes| && x == nodes[p]
      modifies this, nodes`next, nodes`prev, x`container
      ensures Valid() && x.container == null && Model() == RemoveAt(old(Model()), p - 1)
      ensures forall n :: n in nodes <==> n in old(nodes) && n != x
    {
      hide Valid, Shape, Linked, Distinct, Model, RemoveAt;
      NonEmpty();
      Parts();
      RemovedMembers(nodes, p);
      Unlink(x, nodes, p);
      Leave(x, p);
    }
  }

  /** Take an item off the list it is on, and return how many are left there. */
  method Remove(x: ListItem) returns (left: nat, ghost p: nat)
    requires x.container != null && x.container.Valid() && x in x.container.Model().items
    modifies x.container, x.container.nodes`next, x.container.nodes`prev, x`container
    ensures x.container == null
    ensures var l, was := old(x.container), old(x.container.Model());
      l.Valid() && p < |was.items| && was.items[p] == x && l.Model() == RemoveAt(was, p) && left == l.count
    ensures forall n :: n in old(x.container).nodes <==> n in old(x.container.nodes) && n != x
  {
    hide List.Valid, List.Shape, Linked, Distinct, List.Model, RemoveAt;
    var l := x.container;
    l.NonEmpty();
    p :| p < |l.Model().items| && l.Model().items[p] == x;
    l.TakeOut(x, p + 1);
    left := l.count;
  }

  /** `l` has its ring, cursor and count, and each of its nodes its links and its container, as before. */
  twostate predicate Restored(l: List)
    reads l, l.nodes
  {
    && l.nodes == old(l.nodes) && l.index == old(l.index) && l.count == old(l.count)
    && forall n | n in l.nodes :: n.next == old(n.next) && n.prev == old(n.prev) && n.container == old(n.container)
  }

  lemma InsertedAt(l: List, was: Ring<ListItem>, p: nat, x: ListItem)
    requires l.Valid() && was.cursor <= |was.items| && p <= |was.items| && l.Model() == InsertAt(was, p, x)
    ensures x in l.Model().items && Distinct(InsertAt(was, p, x).items)
  {
    RemoveUndoesInsert(was, p, x);
    assert l.Model().items[p] == x;
  }

  /** The removal finds the item where the insertion put it. */
  lemma TakenBack<T>(was: Ring<T>, p: nat, x: T, k: nat)
    requires was.cursor <= |was.items| && p <= |was.items| && Distinct(InsertAt(was, p, x).items)
    requires k < |InsertAt(was, p, x).items| && InsertAt(was, p, x).items[k] == x
    ensures RemoveAt(InsertAt(was, p, x), k) == was
  {
    RemoveUndoesInsert(was, p, x);
  }

  /** Removing an item just put in before the cursor restores every link, the cursor and the count. */
  method InsertEndThenRemove(l: List, x: ListItem)
    requires l.Valid() && x !in l.nodes
    modifies l, l.nodes`next, l.nodes`prev, x`next, x`prev, x`container
    ensures l.Valid() && l.Model() == old(l.Model()) && Restored(l) && x.container == null
  {
    hide List.Valid, List.Shape, Linked, List.Model, InsertAt, RemoveAt;
    ghost var was := l.Model();
    ghost var p := if was.cursor == 0 then |was.items| else was.cursor - 1;
    l.NonEmpty();
    l.InsertEnd(x);
    InsertedAt(l, was, p, x);
    assert forall i | 0 <= i < |l.nodes| :: l.nodes[i] in old(l.nodes) || l.nodes[i] == x;
    var left;
    ghost var k;
    left, k := Remove(x);
    TakenBack(was, p, x, k);
    l.ModelDecides();
  }

  /** So does removing an item just sorted in. */
  method InsertThenRemove(l: List, x: ListItem)
    requires l.Valid() && x !in l.nodes
    modifies l, l.nodes`next, l.nodes`prev, x`next, x`prev, x`container
    ensures l.Valid() && l.Model() == old(l.Model()) && Restored(l) && x.container == null
  {
    hide List.Valid, List.Shape, Linked, List.Model, InsertAt, RemoveAt, List.SlotOf;
    ghost var was := l.Model();
    ghost var p := l.SlotOf(x.value);
    l.NonEmpty();
    l.Insert(x);
    InsertedAt(l, was, p, x);
    assert forall i | 0 <= i < |l.nodes| :: l.nodes[i] in old(l.nodes) || l.nodes[i] == x;
    var left;
    ghost var k;
    left, k := Remove(x);
    TakenBack(was, p, x, k);
    l.ModelDecides();
  }

  /** The cursor is on the end marker and `y` is next, the only item. An item of smaller value that is sorted in now
      is returned in its place. */
  method InsertThenStep(l: List, y: ListItem, x: ListItem) returns (owner: int)
    requires l.Valid() && l.Model() == Ring([y], 0) && x !in l.nodes && x.value < y.value
    modifies l, l.nodes`next, l.nodes`prev, x`next, x`prev, x`container
    ensures l.Valid() && l.Model() == Ring([x, y], 1) && owner == x.owner
  {
    hide List.Valid, List.Shape, Linked, EntriesOf, Slot;
    l.NonEmpty();
    SlotUnique(Values(l.Entries()), x.value, 0);
    l.Insert(x);
    l.NonEmpty();
    owner := l.NextOwner();
  }
}
