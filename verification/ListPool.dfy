/** Many lists over one pool of items: what every operation on one of them keeps of all. */
module ListPool {
  import opened CursorRing
  import opened SchedulerList

  /** All lists and all items of a program. */
  class Pool {
    ghost var lists: set<List>
    ghost var items: set<ListItem>

    ghost predicate ListOk(l: List)
      reads *
    {
      l.Valid() && l.end !in items && forall n | n in l.nodes && n != l.end :: n in items
    }

    ghost predicate Valid()
      reads *
    {
      && (forall l | l in lists :: ListOk(l))
      && (forall l, m | l in lists && m in lists && l != m :: l.end != m.end)
      && (forall x | x in items && x.container != null :: x.container in lists && x in x.container.nodes)
    }

    /** An item names a list as its container exactly when it is on that list's ring. */
    lemma Membership(l: List, x: ListItem)
      requires Valid() && l in lists && x in items
      ensures x.container == l <==> x in l.Model().items
    {
      assert ListOk(l);
    }

    /** No node is shared between two lists, and a free item is on none. */
    lemma Apart(l: List, m: List)
      requires Valid() && l in lists && m in lists && l != m
      ensures forall n | n in l.nodes :: n !in m.nodes
    {
      assert ListOk(l) && ListOk(m);
    }

    constructor ()
      ensures Valid() && lists == {} && items == {}
    {
      lists, items := {}, {};
    }

    /** No other list shares a node with `l` or holds the free item `x`. */
    ghost predicate Separate(l: List, x: ListItem)
      reads *
    {
      forall m | m in lists && m != l :: m.Valid() && x !in m.nodes && forall n | n in l.nodes :: n !in m.nodes
    }

    lemma FreeSeparate(l: List, x: ListItem)
      requires Valid() && l in lists && x in items && (x.container == null || x.container == l)
      ensures Separate(l, x) && l.Valid() && (x.container == null ==> x !in l.nodes)
      ensures x.container == l ==> x in l.Model().items
    {
      assert ListOk(l);
      forall m | m in lists && m != l
        ensures m.Valid() && x !in m.nodes && forall n | n in l.nodes :: n !in m.nodes
      {
        assert ListOk(m);
      }
    }

    /** The other lists are just as they were. */
    twostate predicate OthersKept(new l: List)
      reads *
    {
      forall m | m in old(lists) && m != l :: m.Valid() && m.nodes == old(m.nodes) && m.cursor == old(m.cursor)
    }

    /** A list with its cursor and all its nodes as they were. */
    twostate predicate Untouched(m: List)
      reads *
    {
      && m.nodes == old(m.nodes) && m.cursor == old(m.cursor) && m.index == old(m.index) && m.count == old(m.count)
      && forall n | n in m.nodes ::
           n.next == old(n.next) && n.prev == old(n.prev) && n.container == old(n.container) && n.value == old(n.value)
    }

    twostate lemma UntouchedValid(m: List)
      requires old(m.Valid()) && Untouched(m)
      ensures m.Valid()
    {
    }

    twostate lemma OthersUntouched(l: List)
      requires forall m | m in old(lists) && m != l :: old(m.Valid()) && Untouched(m)
      ensures OthersKept(l)
    {
      hide List.Valid;
      forall m | m in old(lists) && m != l
        ensures m.Valid()
      {
        UntouchedValid(m);
      }
    }

    /** After `x` went onto or off the ring of `l`, and nothing else changed hands, all is well again. */
    twostate lemma Changed(new l: List, new x: ListItem)
      requires old(Valid()) && l in old(lists) && x in old(items) && lists == old(lists) && items == old(items)
      requires old(x.container) == null || old(x.container) == l
      requires l.Valid() && x.container == (if x in l.nodes then l else null)
      requires forall n: ListItem | n != x :: n in l.nodes <==> n in old(l.nodes)
      requires forall n | n in items && n != x :: n.container == old(n.container)
      requires OthersKept(l)
      ensures Valid()
    {
      assert old(ListOk(l));
      forall m | m in lists
        ensures ListOk(m)
      {
        assert old(ListOk(m));
      }
    }

    /** A list not yet known, with no items. */
    method NewList() returns (l: List)
      requires Valid()
      modifies this
      ensures Valid() && lists == old(lists) + {l} && items == old(items) && l.Model() == Ring([], 0)
      ensures l !in old(lists) && OthersKept(l)
    {
      l := new List.Initialise();
      lists := lists + {l};
      forall m | m in lists
        ensures ListOk(m)
      {
        if m != l {
          assert old(ListOk(m));
        }
      }
    }

    method NewItem(value: Tick, owner: int) returns (x: ListItem)
      requires Valid()
      modifies this
      ensures Valid() && items == old(items) + {x} && lists == old(lists) && x !in old(items)
      ensures x.value == value && x.owner == owner && x.container == null
      ensures forall m | m in lists :: m.Model() == old(m.Model())
    {
      x := new ListItem(value, owner);
      items := items + {x};
      forall m | m in lists
        ensures ListOk(m)
      {
        assert old(ListOk(m));
      }
    }

    method InsertEnd(l: List, x: ListItem)
      requires Valid() && l in lists && x in items && x.container == null
      modifies l, l.nodes`next, l.nodes`prev, x`next, x`prev, x`container
      ensures Valid() && OthersKept(l) && l.Model() == CursorRing.InsertEnd(old(l.Model()), x)
    {
      hide Valid, List.Valid, CursorRing.InsertEnd, OthersKept;
      FreeSeparate(l, x);
      l.InsertEnd(x);
      forall m | m in old(lists) && m != l
        ensures old(m.Valid()) && Untouched(m)
      {
        assert forall n | n in m.nodes :: n != x && n !in old(l.nodes);
      }
      OthersUntouched(l);
      Changed(l, x);
    }

    method Insert(l: List, x: ListItem)
      requires Valid() && l in lists && x in items && x.container == null
      modifies l, l.nodes`next, l.nodes`prev, x`next, x`prev, x`container
      ensures Valid() && OthersKept(l) && l.Entries() == InsertSorted(old(l.Entries()), Entry(x.value, x))
      ensures l.Model() == InsertAt(old(l.Model()), Slot(Values(old(l.Entries())), x.value), x)
    {
      hide Valid, List.Valid, List.Entries, InsertSorted, InsertAt, OthersKept, Slot, Values;
      FreeSeparate(l, x);
      l.Insert(x);
      forall m | m in old(lists) && m != l
        ensures old(m.Valid()) && Untouched(m)
      {
        assert forall n | n in m.nodes :: n != x && n !in old(l.nodes);
      }
      OthersUntouched(l);
      Changed(l, x);
    }

    method Remove(x: ListItem) returns (left: nat, ghost p: nat)
      requires Valid() && x in items && x.container != null
      modifies x.container, x.container.nodes`next, x.container.nodes`prev, x`container
      ensures Valid() && OthersKept(old(x.container)) && x.container == null
      ensures var l, was := old(x.container), old(x.container.Model());
        p < |was.items| && was.items[p] == x && l.Model() == RemoveAt(was, p) && left == |l.Model().items|
    {
      var l := x.container;
      FreeSeparate(l, x);
      left, p := SchedulerList.Remove(x);
      forall m | m in old(lists) && m != l
        ensures old(m.Valid()) && Untouched(m)
      {
        assert forall n | n in m.nodes :: n != x && n !in old(l.nodes);
      }
      OthersUntouched(l);
      Changed(l, x);
    }

    method NextOwner(l: List) returns (owner: int)
      requires Valid() && l in lists && l.count > 0
      modifies l`index, l`cursor
      ensures Valid() && OthersKept(l) && l.Model() == Advance(old(l.Model())) && owner == Current(l.Model()).owner
    {
      assert ListOk(l);
      owner := l.NextOwner();
      forall m | m in lists
        ensures ListOk(m)
      {
        assert old(ListOk(m));
      }
    }
  }
}
