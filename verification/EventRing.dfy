/** The server's registered event clients as a value: their queue ids, oldest first. */
module EventRing {
  import opened MessageQueue
  import opened Seqs

  const MAX_CLIENT: nat := 10

  /** What became of one attempt to send to a queue. */
  datatype Outcome = Accepted | Full | Interrupted | Failed

  /** The outcomes that count: an interrupted attempt is made again. */
  function Settled(tries: seq<Outcome>): (os: seq<Outcome>)
    ensures forall o | o in os :: o != Interrupted
  {
    if tries == [] then []
    else if tries[0] == Interrupted then Settled(tries[1..])
    else [tries[0]] + Settled(tries[1..])
  }

  /** It is the outcomes other than interruptions, in their order. */
  lemma {:induction false} SettledConcat(a: seq<Outcome>, b: seq<Outcome>)
    ensures Settled(a + b) == Settled(a) + Settled(b)
  {
    if a == [] {
      assert a + b == b;
    } else {
      assert (a + b)[1..] == a[1..] + b;
      SettledConcat(a[1..], b);
    }
  }

  lemma SettledOne(o: Outcome)
    ensures Settled([o]) == if o == Interrupted then [] else [o]
  {
  }

  ghost predicate Proper(r: seq<int>) {
    Distinct(r) && |r| <= MAX_CLIENT
  }

  /** The clients of `r` whose attempt did not fail, in order. */
  function Survivors<T>(r: seq<T>, os: seq<Outcome>): seq<T>
    requires |r| <= |os|
  {
    if r == [] then [] else (if os[0] == Failed then [] else [r[0]]) + Survivors(r[1..], os[1..])
  }

  /** A queue nobody has written to is empty. */
  function QueueOf(queues: map<int, Queue>, qid: int): (q: Queue)
    ensures if qid in queues then q == queues[qid] else q == []
  {
    if qid in queues then queues[qid] else []
  }

  function Put(queues: map<int, Queue>, qid: int, m: Pkg): map<int, Queue> {
    queues[qid := QueueOf(queues, qid) + [m]]
  }

  /** The queues after one package was sent to each client of `r`. */
  function Delivered(queues: map<int, Queue>, r: seq<int>, os: seq<Outcome>, m: Pkg): map<int, Queue>
    requires |r| <= |os|
    decreases |r|
  {
    if r == [] then queues
    else Delivered(if os[0] == Accepted then Put(queues, r[0], m) else queues, r[1..], os[1..], m)
  }

  function Without(r: seq<int>, qid: int): seq<int> {
    if r == [] then [] else (if r[0] == qid then [] else [r[0]]) + Without(r[1..], qid)
  }

  /** Whether a registration gets as far as a reply: a full ring turns everyone away, registered or not. */
  predicate Heard(r: seq<int>, qid: int, memory: bool) {
    |r| < MAX_CLIENT && (qid in r || memory)
  }

  /** The ring after a registration by `qid`, given whether memory was found and what became of the reply. */
  function Register(r: seq<int>, qid: int, memory: bool, reply: Outcome): seq<int> {
    if !Heard(r, qid, memory) then r
    else if reply == Failed then Without(r, qid)
    else if qid in r then r
    else r + [qid]
  }

  datatype Event =
    | Registration(qid: int, memory: bool, reply: Outcome)
    | Broadcast(os: seq<Outcome>)
    | Deletion(qid: int)

  function Step(r: seq<int>, e: Event): seq<int> {
    match e
    case Registration(qid, memory, reply) => Register(r, qid, memory, reply)
    case Broadcast(os) => if |r| <= |os| then Survivors(r, os) else r
    case Deletion(qid) => Without(r, qid)
  }

  function Run(r: seq<int>, es: seq<Event>): seq<int>
    decreases |es|
  {
    if es == [] then r else Run(Step(r, es[0]), es[1..])
  }

  // ---- what every run keeps ----

  /** `s` is `r` with some elements left out. */
  ghost predicate Thinned<T>(s: seq<T>, r: seq<T>) {
    if s == [] then true
    else if r == [] then false
    else (s[0] == r[0] && Thinned(s[1..], r[1..])) || Thinned(s, r[1..])
  }

  lemma ThinCons<T>(s: seq<T>, r: seq<T>)
    requires r != [] && Thinned(s, r[1..])
    ensures Thinned([r[0]] + s, r) && Thinned([] + s, r)
  {
    assert ([r[0]] + s)[1..] == s && [] + s == s;
  }

  lemma {:induction false} SurvivorsThin<T>(r: seq<T>, os: seq<Outcome>)
    requires |r| <= |os|
    ensures Thinned(Survivors(r, os), r)
  {
    if r != [] {
      SurvivorsThin(r[1..], os[1..]);
      ThinCons(Survivors(r[1..], os[1..]), r);
    }
  }

  lemma {:induction false} WithoutThin(r: seq<int>, qid: int)
    ensures Thinned(Without(r, qid), r) && qid !in Without(r, qid)
    ensures forall x | x in r && x != qid :: x in Without(r, qid)
  {
    if r != [] {
      WithoutThin(r[1..], qid);
      ThinCons(Without(r[1..], qid), r);
    }
  }

  lemma HeadFirst<T>(s: seq<T>, r: seq<T>)
    requires s != [] && r != [] && s[0] == r[0]
    requires (forall x | x in s[1..] :: x in r[1..]) && (Distinct(r[1..]) ==> Distinct(s[1..]))
    ensures Distinct(r) ==> Distinct(s)
  {
    if Distinct(r) {
      forall i, j | 0 <= i < j < |s|
        ensures s[i] != s[j]
      {
        if i == 0 {
          assert s[j] == s[1..][j - 1] && s[j] in r[1..];
          var k :| 0 <= k < |r[1..]| && r[1..][k] == s[j];
          assert r[k + 1] == s[j];
        } else {
          assert s[1..][i - 1] != s[1..][j - 1];
        }
      }
    }
  }

  lemma {:induction false} ThinnedKeeps<T>(s: seq<T>, r: seq<T>)
    requires Thinned(s, r)
    ensures |s| <= |r| && (forall x | x in s :: x in r) && (Distinct(r) ==> Distinct(s))
  {
    if s != [] {
      if s[0] == r[0] && Thinned(s[1..], r[1..]) {
        ThinnedKeeps(s[1..], r[1..]);
        assert s == [s[0]] + s[1..] && r == [r[0]] + r[1..];
        HeadFirst(s, r);
      } else {
        ThinnedKeeps(s, r[1..]);
      }
    }
  }

  lemma StepProper(r: seq<int>, e: Event)
    requires Proper(r)
    ensures Proper(Step(r, e))
  {
    match e {
      case Registration(qid, memory, reply) =>
        WithoutThin(r, qid);
        ThinnedKeeps(Without(r, qid), r);
      case Broadcast(os) =>
        if |r| <= |os| {
          SurvivorsThin(r, os);
          ThinnedKeeps(Survivors(r, os), r);
        }
      case Deletion(qid) =>
        WithoutThin(r, qid);
        ThinnedKeeps(Without(r, qid), r);
    }
  }

  lemma {:induction false} RunKeepsProper(r: seq<int>, es: seq<Event>)
    requires Proper(r)
    ensures Proper(Run(r, es))
    decreases |es|
  {
    if es != [] {
      StepProper(r, es[0]);
      RunKeepsProper(Step(r, es[0]), es[1..]);
    }
  }

  /** From an empty ring, over any run: at most ten clients, no queue id twice. */
  lemma RunProper(es: seq<Event>)
    ensures var r := Run([], es); |r| <= 10 && forall i, j | 0 <= i < j < |r| :: r[i] != r[j]
  {
    RunKeepsProper([], es);
  }

  /** Putting a package in a queue appends it there and leaves every other queue alone. */
  lemma PutAppends(queues: map<int, Queue>, qid: int, m: Pkg, q: int)
    ensures QueueOf(Put(queues, qid, m), q) == QueueOf(queues, q) + if q == qid then [m] else []
  {
  }

  /** A client that is registered already is heard, and so answered, exactly while the ring is not full. */
  lemma HeardAgainExactly(r: seq<int>, qid: int, memory: bool)
    requires Proper(r) && qid in r
    ensures Heard(r, qid, memory) <==> |r| < 10
    ensures !Heard(r, qid, memory) <==> |r| == 10
  {
  }

  /** The registrations of clients that find memory and take their replies. */
  function Registrations(ids: seq<int>): (es: seq<Event>)
    ensures |es| == |ids|
  {
    if ids == [] then [] else [Registration(ids[0], true, Accepted)] + Registrations(ids[1..])
  }

  lemma {:induction false} RegisterAll(r: seq<int>, ids: seq<int>)
    requires Proper(r + ids)
    ensures Run(r, Registrations(ids)) == r + ids
    decreases |ids|
  {
    if ids == [] {
      assert r + ids == r;
    } else {
      forall i | 0 <= i < |r|
        ensures r[i] != ids[0]
      {
        assert r[i] == (r + ids)[i] && ids[0] == (r + ids)[|r|];
      }
      assert r + [ids[0]] + ids[1..] == r + ids;
      assert Registrations(ids)[1..] == Registrations(ids[1..]);
      RegisterAll(r + [ids[0]], ids[1..]);
    }
  }

  /** Ten clients that register one after the other fill the ring, and from then on none of them is heard again,
      though registering again needs neither room nor memory. */
  lemma FullTurnsAway(ids: seq<int>, i: nat, memory: bool)
    requires Distinct(ids) && |ids| == 10 && i < |ids|
    ensures var r := Run([], Registrations(ids)); r == ids && ids[i] in r && !Heard(r, ids[i], memory)
  {
    assert [] + ids == ids;
    RegisterAll([], ids);
  }

  /** While only registrations come, a full ring stays as it is and answers none of them. */
  lemma {:induction false} FullStaysFull(r: seq<int>, es: seq<Event>)
    requires |r| == 10 && forall e | e in es :: e.Registration?
    ensures Run(r, es) == r
    ensures forall e | e in es :: !Heard(Run(r, es), e.qid, e.memory)
    decreases |es|
  {
    if es != [] {
      assert es[0] in es;
      FullStaysFull(r, es[1..]);
    }
  }

  // ---- one broadcast ----

  /** Each queue gets one copy when its client's attempt was accepted, and nothing otherwise. */
  lemma {:induction false} DeliveredTo(queues: map<int, Queue>, r: seq<int>, os: seq<Outcome>, m: Pkg, qid: int)
    requires |r| <= |os| && Distinct(r)
    decreases |r|
    ensures QueueOf(Delivered(queues, r, os, m), qid) ==
      QueueOf(queues, qid) + if exists i :: 0 <= i < |r| && r[i] == qid && os[i] == Accepted then [m] else []
  {
    if r != [] {
      var next := if os[0] == Accepted then Put(queues, r[0], m) else queues;
      assert Distinct(r[1..]);
      DeliveredTo(next, r[1..], os[1..], m, qid);
      forall i | 0 < i < |r|
        ensures r[i] == r[1..][i - 1] && os[i] == os[1..][i - 1]
      {
      }
      if exists i :: 0 <= i < |r| && r[i] == qid && os[i] == Accepted {
        var i :| 0 <= i < |r| && r[i] == qid && os[i] == Accepted;
        if 0 < i {
          assert r[1..][i - 1] == qid && os[1..][i - 1] == Accepted;
        }
      }
    }
  }

  /** A client stays registered exactly when its attempt did not fail. */
  lemma {:induction false} SurvivesExactly(r: seq<int>, os: seq<Outcome>, i: nat)
    requires |r| <= |os| && Distinct(r) && i < |r|
    ensures r[i] in Survivors(r, os) <==> os[i] != Failed
  {
    SurvivorsThin(r[1..], os[1..]);
    ThinnedKeeps(Survivors(r[1..], os[1..]), r[1..]);
    if i == 0 {
      assert r[0] !in r[1..];
    } else {
      assert r[i] == r[1..][i - 1] && Distinct(r[1..]);
      SurvivesExactly(r[1..], os[1..], i - 1);
    }
  }

  // ---- one more client ----

  lemma {:induction false} SurvivorsSnoc<T>(r: seq<T>, os: seq<Outcome>, k: nat)
    requires k < |r| <= |os|
    ensures Survivors(r[..k + 1], os[..k + 1]) == Survivors(r[..k], os[..k]) + if os[k] == Failed then [] else [r[k]]
  {
    if k == 0 {
      assert r[..1][1..] == [] && os[..1][1..] == [];
    } else {
      SurvivorsSnoc(r[1..], os[1..], k - 1);
      assert r[..k + 1][1..] == r[1..][..k] && os[..k + 1][1..] == os[1..][..k];
      assert r[..k][1..] == r[1..][..k - 1] && os[..k][1..] == os[1..][..k - 1];
    }
  }

  lemma {:induction false} DeliveredSnoc(queues: map<int, Queue>, r: seq<int>, os: seq<Outcome>, m: Pkg, k: nat)
    requires k < |r| <= |os|
    ensures var before := Delivered(queues, r[..k], os[..k], m);
      Delivered(queues, r[..k + 1], os[..k + 1], m) == if os[k] == Accepted then Put(before, r[k], m) else before
    decreases k
  {
    if k == 0 {
      assert r[..1][1..] == [] && os[..1][1..] == [];
    } else {
      DeliveredSnoc(if os[0] == Accepted then Put(queues, r[0], m) else queues, r[1..], os[1..], m, k - 1);
      assert r[..k + 1][1..] == r[1..][..k] && os[..k + 1][1..] == os[1..][..k];
      assert r[..k][1..] == r[1..][..k - 1] && os[..k][1..] == os[1..][..k - 1];
    }
  }

  /** The next attempt settles the next outcome, unless it is interrupted. */
  lemma SettledStep(tries: seq<Outcome>, i: nat, os: seq<Outcome>, k: nat)
    requires i <= |tries| && k < |os| && Settled(tries[i..]) == os[k..]
    ensures i < |tries|
    ensures if tries[i] == Interrupted then Settled(tries[i + 1..]) == os[k..]
            else tries[i] == os[k] && Settled(tries[i + 1..]) == os[k + 1..]
  {
    if i < |tries| {
      assert tries[i..][1..] == tries[i + 1..];
      assert os[k..][1..] == os[k + 1..];
    }
  }

  lemma DeliveredNone(queues: map<int, Queue>, m: Pkg)
    ensures Delivered(queues, [], [], m) == queues
  {
  }

  lemma DistinctTail(r: seq<int>)
    requires Distinct(r) && r != []
    ensures Distinct(r[1..]) && r[0] !in r[1..] && forall x | x in r[1..] :: x != r[0]
  {
  }

  lemma {:induction false} WithoutAbsent(r: seq<int>, qid: int)
    requires qid !in r
    ensures Without(r, qid) == r
  {
    if r != [] {
      WithoutAbsent(r[1..], qid);
      assert r == [r[0]] + r[1..];
    }
  }

  /** Leaving out a queue id that occurs once. */
  lemma {:induction false} WithoutOnce(r: seq<int>, p: nat)
    requires Distinct(r) && p < |r|
    ensures Without(r, r[p]) == r[..p] + r[p + 1..]
  {
    hide Distinct;
    DistinctTail(r);
    if p == 0 {
      WithoutAbsent(r[1..], r[0]);
    } else {
      assert r[1..][p - 1] == r[p];
      WithoutOnce(r[1..], p - 1);
      assert r[..p] == [r[0]] + r[1..][..p - 1];
    }
  }

  /** Leaving the newcomer out again. */
  lemma {:induction false} WithoutLast(r: seq<int>, qid: int)
    requires qid !in r
    ensures Without(r + [qid], qid) == r && Without(r, qid) == r
  {
    WithoutAbsent(r, qid);
    if r == [] {
      assert r + [qid] == [qid];
    } else {
      WithoutLast(r[1..], qid);
      assert (r + [qid])[1..] == r[1..] + [qid];
    }
  }

  /** A registration that is heard leaves its client on the ring exactly when the reply did not fail; one that
      is not changes nothing. The others stay, in their order. */
  lemma RegisteredExactly(r: seq<int>, qid: int, memory: bool, reply: Outcome)
    requires Proper(r)
    ensures var s := Register(r, qid, memory, reply);
      && (qid in s <==> if |r| < 10 && (qid in r || memory) then reply != Failed else qid in r)
      && Without(s, qid) == Without(r, qid)
      && (qid in s ==> s == if qid in r then r else r + [qid])
  {
    WithoutThin(r, qid);
    WithoutAbsent(Without(r, qid), qid);
    if qid !in r {
      WithoutLast(r, qid);
    }
  }

  lemma Unheard(r: seq<int>, qid: int, memory: bool, reply: Outcome)
    ensures !Heard(r, qid, memory) ==> Register(r, qid, memory, reply) == r
  {
  }

  /** Registering first and withdrawing the client at place `p` when the reply failed. */
  lemma Heeded(r: seq<int>, s: seq<int>, qid: int, memory: bool, p: nat, reply: Outcome)
    requires Proper(r) && Heard(r, qid, memory) && s == r + (if qid in r then [] else [qid])
    requires p < |s| && s[p] == qid
    ensures Register(r, qid, memory, reply) == if reply == Failed then s[..p] + s[p + 1..] else s
  {
    if qid in r {
      assert s == r;
      WithoutOnce(r, p);
    } else {
      WithoutLast(r, qid);
      assert s[..p] + s[p + 1..] == r;
    }
  }
}
