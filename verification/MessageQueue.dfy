/** A System V message queue as the library uses it: typed packages, received first in first out by type. */
module MessageQueue {

  /** The most bytes `msgrcv` is asked for, and the most payload bytes a sender may pass. */
  const MAX_SIZE: nat := 2048 - 8

  /** What the `xid` field adds to the text of a message. */
  const XID_SIZE: nat := 8

  const SEND_TO_SERVER: int := 1
  const REG_TO_SERVER: int := 2

  datatype Pkg = Pkg(msgid: int, xid: int, data: seq<bv8>)

  type Queue = seq<Pkg>

  /** The text of a package is larger than a receiver accepts. */
  predicate TooBig(m: Pkg) {
    |m.data| + XID_SIZE > MAX_SIZE
  }

  /** The index of the first package of type `t`, or `|q|`. */
  function Find(q: Queue, t: int): (i: nat)
    ensures i <= |q|
    ensures forall j | 0 <= j < i :: q[j].msgid != t
    ensures i < |q| ==> q[i].msgid == t
  {
    if q == [] || q[0].msgid == t then 0 else 1 + Find(q[1..], t)
  }

  lemma FindUnique(q: Queue, t: int, i: nat)
    requires i <= |q| && forall j | 0 <= j < i :: q[j].msgid != t
    requires i < |q| ==> q[i].msgid == t
    ensures Find(q, t) == i
  {
  }

  function RemoveAt<T>(q: seq<T>, i: nat): seq<T>
    requires i < |q|
  {
    q[..i] + q[i + 1..]
  }

  /** Whether a receive of type `t` takes a package: there is one, and the first is not too big. A package
      that is too big fails the call and stays where it is. */
  predicate Receivable(q: Queue, t: int) {
    var i := Find(q, t);
    i < |q| && !TooBig(q[i])
  }

  function Received(q: Queue, t: int): Pkg
    requires Receivable(q, t)
  {
    q[Find(q, t)]
  }

  function AfterReceive(q: Queue, t: int): Queue {
    if Receivable(q, t) then RemoveAt(q, Find(q, t)) else q
  }

  /** The length checks every sending function makes before it touches anything. */
  predicate Sendable(data: seq<bv8>) {
    0 < |data| <= MAX_SIZE
  }

  // ---- clearing ----

  /** The queue after `k` receives of any type, as the clearing loop makes them while the queue is not empty:
      each takes the first package, unless that is too big. */
  function ClearedBy(q: Queue, k: nat): Queue {
    if k == 0 || q == [] then q
    else if TooBig(q[0]) then ClearedBy(q, k - 1)
    else ClearedBy(q[1..], k - 1)
  }

  lemma {:induction false} Stuck(q: Queue, k: nat)
    requires q != [] && TooBig(q[0])
    ensures ClearedBy(q, k) == q
  {
    if k != 0 {
      Stuck(q, k - 1);
    }
  }

  lemma {:induction false} Clears(q: Queue)
    requires forall m | m in q :: !TooBig(m)
    ensures ClearedBy(q, |q|) == []
  {
    if q != [] {
      Clears(q[1..]);
    }
  }

  lemma {:induction false} NeverClears(q: Queue, k: nat)
    requires exists m :: m in q && TooBig(m)
    ensures ClearedBy(q, k) != []
    decreases k
  {
    if TooBig(q[0]) {
      Stuck(q, k);
    } else if k != 0 {
      NeverClears(q[1..], k - 1);
    }
  }

  /** The clearing loop ends if and only if no package in the queue is too big to be received. */
  lemma ClearEndsExactly(q: Queue)
    ensures (exists k :: ClearedBy(q, k) == []) <==> forall m | m in q :: !TooBig(m)
  {
    if forall m | m in q :: !TooBig(m) {
      Clears(q);
    } else {
      forall k
        ensures ClearedBy(q, k) != []
      {
        NeverClears(q, k);
      }
    }
  }
}
