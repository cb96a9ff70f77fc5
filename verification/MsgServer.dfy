/** The message-queue server and client: the calls that make up the protocol steps, and the ring of
    registered event clients. */
module MsgServer {
  import opened MessageQueue
  import opened EventRing
  import opened Seqs
  import opened Wrappers
  import AskAck

  /** What an attempt to receive comes to; `Failure` stands for every error but the lack of a message. */
  datatype Receipt = Taken(pkg: Pkg) | NoMessage | Failure

  function Receives(q: Queue, t: int): Receipt {
    if Receivable(q, t) then Taken(Received(q, t))
    else if Find(q, t) == |q| then NoMessage
    else Failure
  }

  lemma ReceivesTells(q: Queue, t: int)
    ensures Receives(q, t).Taken? <==> Receivable(q, t)
    ensures Receivable(q, t) ==> Receives(q, t) == Taken(Received(q, t))
    ensures var k := Find(q, t); k == |q| <==> Receives(q, t) == NoMessage
    ensures var k := Find(q, t); k < |q| && |q[k].data| <= 2032 <==> Receivable(q, t)
  {
  }

  /** What one attempt of a waiting call meets: the queues as other processes have left them by then, whether it
      breaks off with an error of its own, and whether the time is up afterwards. */
  datatype Look = Look(queues: map<int, Queue>, broken: bool, expired: bool)

  /** The number of attempts of a waiting call that find no message and have time left. */
  function Waited(looks: seq<Look>, qid: int, t: int): (k: nat)
    ensures k <= |looks|
    ensures forall i | 0 <= i < k :: !looks[i].broken && !looks[i].expired
    ensures forall i | 0 <= i < k :: forall m | m in QueueOf(looks[i].queues, qid) :: m.msgid != t
    ensures k < |looks| ==>
      looks[k].broken || looks[k].expired || exists m :: m in QueueOf(looks[k].queues, qid) && m.msgid == t
  {
    if looks == [] || looks[0].broken || looks[0].expired then 0
    else if Receives(QueueOf(looks[0].queues, qid), t) != NoMessage then 0
    else 1 + Waited(looks[1..], qid, t)
  }

  /** Attempt `i` is the last of those from `i` on, or leaves one less to come. */
  lemma WaitedStep(looks: seq<Look>, i: nat, qid: int, t: int)
    requires i < |looks|
    ensures var l := looks[i];
      if l.broken || l.expired || Receives(QueueOf(l.queues, qid), t) != NoMessage then Waited(looks[i..], qid, t) == 0
      else Waited(looks[i..], qid, t) == 1 + Waited(looks[i + 1..], qid, t)
  {
    assert looks[i..][1..] == looks[i + 1..];
  }

  /** No queue but `qid` changed. */
  ghost predicate OthersKept(before: map<int, Queue>, after: map<int, Queue>, qid: int) {
    forall q | q != qid :: QueueOf(after, q) == QueueOf(before, q)
  }

  /** All message queues of the system. */
  class Kernel {
    var queues: map<int, Queue>

    /** One attempt at `msgsnd`; `outcome` is what the system makes of it. */
    method Send(qid: int, m: Pkg, outcome: Outcome)
      modifies this
      ensures queues == if outcome == Accepted then Put(old(queues), qid, m) else old(queues)
    {
      if outcome == Accepted {
        queues := Put(queues, qid, m);
      }
    }

    /** `msgrcv` by type: look through the queue for the first package of the type, which is package `i`; `i` is the
        length of the queue when there is none. */
    method Receive(qid: int, t: int) returns (r: Receipt, ghost i: nat)
      modifies this
      ensures var q := QueueOf(old(queues), qid);
        && i <= |q| && (forall j | 0 <= j < i :: q[j].msgid != t) && (i < |q| ==> q[i].msgid == t)
        && r == (if i == |q| then NoMessage else if |q[i].data| > 2032 then Failure else Taken(q[i]))
        && queues == (if r.Taken? then old(queues)[qid := q[..i] + q[i + 1..]] else old(queues))
      ensures var q := QueueOf(old(queues), qid);
        && r == Receives(q, t)
        && queues == if Receivable(q, t) then old(queues)[qid := AfterReceive(q, t)] else old(queues)
    {
      var q := QueueOf(queues, qid);
      var at := 0;
      while at < |q| && q[at].msgid != t
        invariant at <= |q| && forall j | 0 <= j < at :: q[j].msgid != t
      {
        at := at + 1;
      }
      i := at;
      FindUnique(q, t, at);
      if at == |q| {
        return NoMessage, i;
      }
      if |q[at].data| + XID_SIZE > MAX_SIZE {
        return Failure, i;
      }
      r := Taken(q[at]);
      queues := queues[qid := q[..at] + q[at + 1..]];
    }

    /** `msgrcv` of any type: the first package of the queue. */
    method ReceiveAny(qid: int)
      modifies this
      ensures OthersKept(old(queues), queues, qid)
      ensures var q := QueueOf(old(queues), qid);
        QueueOf(queues, qid) == if q != [] && !TooBig(q[0]) then q[1..] else q
    {
      var q := QueueOf(queues, qid);
      if q != [] {
        if |q[0].data| + XID_SIZE <= MAX_SIZE {
          queues := queues[qid := q[1..]];
        }
      }
    }

    /** The clearing loop, seen after at most `rounds` rounds: `done` says whether it has ended by then. */
    method Clear(qid: int, rounds: nat) returns (done: bool)
      modifies this
      ensures QueueOf(queues, qid) == ClearedBy(QueueOf(old(queues), qid), rounds)
      ensures done <==> QueueOf(queues, qid) == []
      ensures OthersKept(old(queues), queues, qid)
    {
      var i := 0;
      while i < rounds && QueueOf(queues, qid) != []
        invariant i <= rounds
        invariant ClearedBy(QueueOf(queues, qid), rounds - i) == ClearedBy(QueueOf(old(queues), qid), rounds)
        invariant OthersKept(old(queues), queues, qid)
      {
        ReceiveAny(qid);
        i := i + 1;
      }
      done := QueueOf(queues, qid) == [];
    }

    /** Try to receive until an attempt succeeds, the time is up, or an attempt fails for another reason than the
        lack of a message. The queues are as each attempt meets them. Attempt `i` is the last; package `k` of its
        queue is the first of the type. */
    method Await(qid: int, t: int, looks: seq<Look>) returns (res: int, m: Option<Pkg>, ghost i: nat, ghost k: nat)
      requires Waited(looks, qid, t) < |looks|
      modifies this
      ensures i < |looks| && forall j | 0 <= j < i :: !looks[j].broken && !looks[j].expired
      ensures forall j, n | 0 <= j < i && n in QueueOf(looks[j].queues, qid) :: n.msgid != t
      ensures looks[i].broken || looks[i].expired || exists n :: n in QueueOf(looks[i].queues, qid) && n.msgid == t
      ensures var l, q := looks[i], QueueOf(looks[i].queues, qid);
        && k <= |q| && (forall h | 0 <= h < k :: q[h].msgid != t) && (k < |q| ==> q[k].msgid == t)
        && (res == 0 <==> !l.broken && k < |q| && |q[k].data| <= 2032)
        && (res == 0 ==> m == Some(q[k]) && queues == l.queues[qid := q[..k] + q[k + 1..]])
        && (res != 0 ==> m == None && queues == l.queues && res == if l.expired then 1 else -1)
      ensures i == Waited(looks, qid, t)
      ensures var l, q := looks[i], QueueOf(looks[i].queues, qid);
        && (res == 0 <==> !l.broken && Receivable(q, t))
        && (res == 0 ==> m == Some(Received(q, t)) && queues == l.queues[qid := AfterReceive(q, t)])
    {
      hide Waited, Receives, Receivable, Received, AfterReceive, Find;
      var at := 0;
      while true
        invariant at < |looks| && at + Waited(looks[at..], qid, t) == Waited(looks, qid, t)
        decreases |looks| - at
      {
        queues := looks[at].queues;
        i, k := at, Find(QueueOf(queues, qid), t);
        var r := Failure;
        if !looks[at].broken {
          r, k := Receive(qid, t);
        }
        WaitedStep(looks, at, qid, t);
        ReceivesTells(QueueOf(looks[at].queues, qid), t);
        if r.Taken? {
          return 0, Some(r.pkg), i, k;
        } else if looks[at].expired {
          return 1, None, i, k;
        } else if r != NoMessage {
          return -1, None, i, k;
        }
        at := at + 1;
      }
    }

    /** Send until an attempt is not interrupted. */
    method SendRetrying(qid: int, m: Pkg, tries: seq<Outcome>) returns (outcome: Outcome)
      requires Settled(tries) != []
      modifies this
      ensures outcome == Settled(tries)[0]
      ensures outcome != Interrupted
      ensures exists i :: 0 <= i < |tries| && tries[i] == outcome && forall j | 0 <= j < i :: tries[j] == Interrupted
      ensures queues == if outcome == Accepted then Put(old(queues), qid, m) else old(queues)
    {
      var i := 0;
      outcome := tries[0];
      Send(qid, m, outcome);
      while outcome == Interrupted
        invariant i < |tries| && outcome == tries[i] && Settled(tries[i..]) == Settled(tries)
        invariant forall j | 0 <= j < i :: tries[j] == Interrupted
        invariant queues == if outcome == Accepted then Put(old(queues), qid, m) else old(queues)
        decreases |tries| - i
      {
        i := i + 1;
        assert tries[i - 1..][1..] == tries[i..];
        outcome := tries[i];
        Send(qid, m, outcome);
      }
    }
  }

  /** The protocol state after the last attempt of a waiting call: its step, unless it broke off. */
  ghost function Looked(l: Look, s: AskAck.State, e: AskAck.Event): AskAck.State {
    if l.broken then s else AskAck.Step(s, e)
  }

  /** The protocol state on queue `qid` when the server's slot is `slot`. */
  ghost function Seen(queues: map<int, Queue>, qid: int, slot: int): AskAck.State {
    AskAck.State(QueueOf(queues, qid), slot)
  }

  /** The asking side of a client process. */
  class Client {
    const srvQ: int
    const pid: int
    const kernel: Kernel

    constructor (srvQ: int, pid: int, kernel: Kernel)
      ensures this.srvQ == srvQ && this.pid == pid && this.kernel == kernel
    {
      this.srvQ, this.pid, this.kernel := srvQ, pid, kernel;
    }

    /** Ask the server. */
    method Send(data: seq<bv8>, tries: seq<Outcome>) returns (res: int)
      requires Settled(tries) != []
      modifies kernel
      ensures var e := AskAck.CltSend(pid, data, Settled(tries)[0] == Accepted);
        forall slot :: Seen(kernel.queues, srvQ, slot) == AskAck.Step(Seen(old(kernel.queues), srvQ, slot), e)
      ensures OthersKept(old(kernel.queues), kernel.queues, srvQ)
      ensures res == if 1 <= |data| <= 2040 && Settled(tries)[0] == Accepted then 0 else -1
      ensures QueueOf(kernel.queues, srvQ)
           == QueueOf(old(kernel.queues), srvQ) + if res == 0 then [Pkg(1, pid, data)] else []
    {
      if |data| == 0 {
        return -1;
      } else if |data| > MAX_SIZE {
        return -1;
      }
      var outcome := kernel.SendRetrying(srvQ, Pkg(SEND_TO_SERVER, pid, data), tries);
      res := if outcome == Accepted then 0 else -1;
    }

    /** Ask to be registered for events, which are to go to queue `eid`; that queue is given up when the request
        cannot be sent. */
    method SendRegistration(eid: int, tries: seq<Outcome>) returns (res: int)
      requires Settled(tries) != []
      modifies kernel
      ensures kernel.queues == if res == 0 then Put(old(kernel.queues), srvQ, Pkg(2, eid, []))
                               else old(kernel.queues) - {eid}
      ensures var e := AskAck.CltRegister(eid, Settled(tries)[0] == Accepted); eid != srvQ ==>
        forall slot :: Seen(kernel.queues, srvQ, slot) == AskAck.Step(Seen(old(kernel.queues), srvQ, slot), e)
      ensures res == if Settled(tries)[0] == Accepted then 0 else -1
    {
      var outcome := kernel.SendRetrying(srvQ, Pkg(REG_TO_SERVER, eid, []), tries);
      if outcome != Accepted {
        kernel.queues := kernel.queues - {eid};
        return -1;
      }
      res := 0;
    }

    /** Wait for an answer. The attempts before attempt `i` take nothing; that one is the protocol's step, and takes
        package `k` of its queue. */
    method Recv(len: nat, looks: seq<Look>)
      returns (res: int, data: Option<seq<bv8>>, ghost i: nat, ghost k: nat)
      requires len != 0 ==> Waited(looks, srvQ, pid) < |looks|
      modifies kernel
      ensures len == 0 ==> res == -1 && data == None && kernel.queues == old(kernel.queues)
      ensures len != 0 ==> i == Waited(looks, srvQ, pid) < |looks|
      ensures len != 0 ==>
        var l, q := looks[i], QueueOf(looks[i].queues, srvQ);
        && k <= |q| && (forall h | 0 <= h < k :: q[h].msgid != pid) && (k < |q| ==> q[k].msgid == pid)
        && (res == 0 <==> !l.broken && k < |q| && |q[k].data| <= 2032)
        && (res == 0 ==> data.Some? && data.value <= q[k].data)
        && (res == 0 ==> |data.value| == if |q[k].data| < len then |q[k].data| else len)
        && (res == 0 ==> QueueOf(kernel.queues, srvQ) == q[..k] + q[k + 1..])
        && (res != 0 ==> data == None && kernel.queues == l.queues && res == if l.expired then 1 else -1)
      ensures len != 0 ==>
        && OthersKept(looks[i].queues, kernel.queues, srvQ)
        && forall slot ::
             Seen(kernel.queues, srvQ, slot) == Looked(looks[i], Seen(looks[i].queues, srvQ, slot), AskAck.CltRecv(pid))
    {
      if len == 0 {
        return -1, None, 0, 0;
      }
      var m;
      res, m, i, k := kernel.Await(srvQ, pid, looks);
      if res != 0 {
        return res, None, i, k;
      }
      var cnt := |m.value.data|;
      if cnt > len {
        cnt := len;
      }
      return 0, Some(m.value.data[..cnt]), i, k;
    }
  }

  class EventClient {
    const qid: int
    var prev: EventClient?
    var next: EventClient?

    constructor (qid: int)
      ensures this.qid == qid
    {
      this.qid, prev, next := qid, null, null;
    }
  }

  ghost function Qids(s: seq<EventClient>): (qs: seq<int>)
    ensures |qs| == |s| && forall i | 0 <= i < |s| :: qs[i] == s[i].qid
  {
    if s == [] then [] else [s[0].qid] + Qids(s[1..])
  }

  /** Each node's neighbours on the ring `s` are those next to it. */
  ghost predicate Linked(s: seq<EventClient>)
    reads s`next, s`prev
  {
    && (forall k {:trigger s[k].next} | 0 <= k < |s| :: s[k].next == s[if k + 1 == |s| then 0 else k + 1])
    && (forall k {:trigger s[k].prev} | 0 <= k < |s| :: s[k].prev == s[if k == 0 then |s| - 1 else k - 1])
  }

  /** A ring in which the neighbours of node `p` lead to each other, without that node. */
  twostate lemma Bypassed(s: seq<EventClient>, new p: nat)
    requires 0 < p < |s| && Distinct(s) && old(Linked(s))
    requires var succ := s[if p + 1 == |s| then 0 else p + 1];
      && s[p - 1].next == succ && succ.prev == s[p - 1]
      && (forall k {:trigger s[k].next} | 0 <= k < |s| && k != p - 1 :: s[k].next == old(s[k].next))
      && (forall k {:trigger s[k].prev} | 0 <= k < |s| && s[k] != succ :: s[k].prev == old(s[k].prev))
    ensures Linked(s[..p] + s[p + 1..])
  {
    var t := s[..p] + s[p + 1..];
    forall k | 0 <= k < |t|
      ensures t[k].next == t[if k + 1 == |t| then 0 else k + 1]
    {
      assert t[k] == s[if k < p then k else k + 1];
    }
    forall k | 0 <= k < |t|
      ensures t[k].prev == t[if k == 0 then |t| - 1 else k - 1]
    {
      assert t[k] == s[if k < p then k else k + 1];
    }
  }

  /** Make the neighbours of node `p` of the ring `s` each other's; the node's own links stay. */
  method Bypass(client: EventClient, ghost s: seq<EventClient>, ghost p: nat)
    requires Linked(s) && Distinct(s) && 0 < p < |s| && client == s[p]
    modifies s`next, s`prev
    ensures Linked(s[..p] + s[p + 1..]) && client.next == old(client.next)
  {
    assert client.prev == s[p - 1] && client.next == s[if p + 1 == |s| then 0 else p + 1];
    client.prev.next := client.next;
    client.next.prev := client.prev;
    Bypassed(s, p);
  }

  lemma QidsConcat(s: seq<EventClient>, t: seq<EventClient>)
    ensures Qids(s + t) == Qids(s) + Qids(t)
  {
    hide Qids;
    forall i | 0 <= i < |s + t|
      ensures Qids(s + t)[i] == (Qids(s) + Qids(t))[i]
    {
      assert (s + t)[i] == if i < |s| then s[i] else t[i - |s|];
    }
  }

  lemma QidsAppend(s: seq<EventClient>, x: EventClient)
    ensures Qids(s + [x]) == Qids(s) + [x.qid]
  {
    hide Qids;
    QidsConcat(s, [x]);
    assert Qids([x]) == [x.qid];
  }

  lemma QidsSlice(s: seq<EventClient>, i: nat, j: nat)
    requires i <= j <= |s|
    ensures Qids(s[i..j]) == Qids(s)[i..j]
  {
    hide Qids;
    forall k | 0 <= k < j - i
      ensures Qids(s[i..j])[k] == Qids(s)[i..j][k]
    {
      assert s[i..j][k] == s[i + k];
    }
  }

  lemma QidsRemove(s: seq<EventClient>, p: nat)
    requires p < |s|
    ensures Qids(s[..p] + s[p + 1..]) == Qids(s)[..p] + Qids(s)[p + 1..]
  {
    hide Qids;
    QidsConcat(s[..p], s[p + 1..]);
    QidsSlice(s, 0, p);
    QidsSlice(s, p + 1, |s|);
  }

  lemma OneLess(s: seq<EventClient>, p: nat)
    requires Distinct(s) && 0 < p < |s|
    ensures var t := s[..p] + s[p + 1..]; Distinct(t) && t != [] && t[0] == s[0] && |t| == |s| - 1
  {
  }

  lemma RegisteredWithout(s: seq<EventClient>, p: nat)
    requires 0 < p < |s|
    ensures Qids((s[..p] + s[p + 1..])[1..]) == Qids(s[1..])[..p - 1] + Qids(s[1..])[p..]
    ensures Distinct(Qids(s[1..])) ==> Qids((s[..p] + s[p + 1..])[1..]) == Without(Qids(s[1..]), s[p].qid)
  {
    hide Qids, Without;
    if Distinct(Qids(s[1..])) {
      WithoutOnce(Qids(s[1..]), p - 1);
    }
    QidsRemove(s[1..], p - 1);
    assert (s[..p] + s[p + 1..])[1..] == s[1..][..p - 1] + s[1..][p..];
  }

  /** The queue ids of the clients that stay are the queue ids that stay. */
  lemma {:induction false} QidsSurvivors(s: seq<EventClient>, os: seq<Outcome>)
    requires |s| <= |os|
    ensures Qids(Survivors(s, os)) == Survivors(Qids(s), os)
  {
    if s != [] {
      QidsSurvivors(s[1..], os[1..]);
      QidsConcat(if os[0] == Failed then [] else [s[0]], Survivors(s[1..], os[1..]));
    }
  }

  class Server {
    var qid: int
    const kernel: Kernel
    const head: EventClient

    /** The client to answer next, 0 for none. */
    var pid: int
    var cltAmt: nat

    /** The head followed by the registered clients, oldest first. */
    ghost var nodes: seq<EventClient>

    ghost predicate Valid()
      reads this`cltAmt, this`nodes, nodes`next, nodes`prev
    {
      && nodes != [] && nodes[0] == head && Distinct(nodes) && Linked(nodes) && cltAmt + 1 == |nodes|
    }

    ghost function Clients(): seq<EventClient>
      reads this`nodes
    {
      if nodes == [] then [] else nodes[1..]
    }

    constructor New(kernel: Kernel)
      ensures this.kernel == kernel && pid == 0 && cltAmt == 0 && Clients() == [] && fresh(head)
    {
      var h := new EventClient(0);
      this.kernel, head := kernel, h;
      qid, pid, cltAmt := 0, 0, 0;
      nodes := [h];
    }

    /** The protocol state: the shared queue and the slot. */
    ghost function View(): AskAck.State
      reads this`qid, this`pid, kernel
    {
      Seen(kernel.queues, qid, pid)
    }

    /** Clear the queue and empty the ring, as far as `rounds` rounds of the clearing loop bring it. The count of
        clients is left as it is. */
    method Init(qid: int, rounds: nat) returns (done: bool)
      modifies this`qid, this`pid, this`nodes, head`next, head`prev, kernel
      ensures this.qid == qid && OthersKept(old(kernel.queues), kernel.queues, qid)
      ensures QueueOf(kernel.queues, qid) == ClearedBy(QueueOf(old(kernel.queues), qid), rounds)
      ensures done <==> QueueOf(kernel.queues, qid) == []
      ensures done ==> View() == AskAck.INIT && Clients() == [] && (Valid() <==> cltAmt == 0)
      ensures !done ==> pid == old(pid) && nodes == old(nodes) && unchanged(head)
    {
      this.qid := qid;
      done := kernel.Clear(qid, rounds);
      if done {
        pid := 0;
        head.prev := head;
        head.next := head;
        nodes := [head];
      }
    }

    /** Wait for a request and remember who made it; with a request still unanswered nothing is taken and the
        call succeeds with no data. Attempt `i` is the last, and takes package `k` of its queue. */
    method Recv(len: nat, looks: seq<Look>)
      returns (res: int, data: Option<seq<bv8>>, ghost i: nat, ghost k: nat)
      requires len != 0 && pid == 0 ==> Waited(looks, qid, SEND_TO_SERVER) < |looks|
      modifies this`pid, kernel
      ensures len == 0 || old(pid) != 0 ==>
        && pid == old(pid) && kernel.queues == old(kernel.queues)
        && data == None && res == if len == 0 then -1 else 0
      ensures len != 0 && old(pid) == 0 ==> i == Waited(looks, qid, 1) < |looks|
      ensures len != 0 && old(pid) == 0 ==>
        var l, q := looks[i], QueueOf(looks[i].queues, qid);
        && k <= |q| && (forall h | 0 <= h < k :: q[h].msgid != 1) && (k < |q| ==> q[k].msgid == 1)
        && (res == 0 <==> !l.broken && k < |q| && |q[k].data| <= 2032)
        && (res == 0 ==> data.Some? && data.value <= q[k].data)
        && (res == 0 ==> |data.value| == if |q[k].data| < len then |q[k].data| else len)
        && (res == 0 ==> pid == q[k].xid && QueueOf(kernel.queues, qid) == q[..k] + q[k + 1..])
        && (res != 0 ==> data == None && pid == 0 && kernel.queues == l.queues && res == if l.expired then 1 else -1)
      ensures len != 0 && old(pid) == 0 ==>
        && OthersKept(looks[i].queues, kernel.queues, qid)
        && View() == Looked(looks[i], Seen(looks[i].queues, qid, 0), AskAck.SrvRecv)
    {
      if len == 0 {
        return -1, None, 0, 0;
      }
      if pid != 0 {
        return 0, None, 0, 0;
      }
      var m;
      res, m, i, k := kernel.Await(qid, SEND_TO_SERVER, looks);
      if res != 0 {
        return res, None, i, k;
      }
      pid := m.value.xid;
      var cnt := |m.value.data|;
      if cnt > len {
        cnt := len;
      }
      return 0, Some(m.value.data[..cnt]), i, k;
    }

    /** Answer the request held; the slot is free afterwards, even when the queue refuses the answer. */
    method Send(data: seq<bv8>, tries: seq<Outcome>) returns (res: int)
      requires Settled(tries) != []
      modifies this`pid, kernel
      ensures View() == AskAck.Step(old(View()), AskAck.SrvSend(data, Settled(tries)[0] == Accepted))
      ensures OthersKept(old(kernel.queues), kernel.queues, qid)
      ensures res == if 1 <= |data| <= 2040 && old(pid) != 0 && Settled(tries)[0] == Accepted then 0 else -1
      ensures pid == if 1 <= |data| <= 2040 then 0 else old(pid)
      ensures QueueOf(kernel.queues, qid)
           == QueueOf(old(kernel.queues), qid) + if res == 0 then [Pkg(old(pid), 0, data)] else []
    {
      if |data| == 0 {
        return -1;
      } else if |data| > MAX_SIZE {
        return -1;
      } else if pid == 0 {
        return -1;
      }
      var pkg := Pkg(pid, 0, data);
      pid := 0;
      var outcome := kernel.SendRetrying(qid, pkg, tries);
      res := if outcome == Accepted then 0 else -1;
    }

    /** Put a client last on the ring. */
    method Add(clt: EventClient) returns (res: int)
      requires Valid() && (clt == head || clt !in nodes)
      modifies this`cltAmt, this`nodes, nodes`next, nodes`prev, clt`next, clt`prev
      ensures Valid() && nodes == (if clt == head then old(nodes) else old(nodes) + [clt])
      ensures res == if clt == head then -1 else 0
    {
      if clt == head {
        return -1;
      }
      ghost var s := nodes;
      var last := head.prev;
      assert last == s[|s| - 1];
      clt.prev := head.prev;
      clt.next := head;
      head.prev.next := clt;
      head.prev := clt;
      cltAmt := cltAmt + 1;
      nodes := nodes + [clt];
      res := 0;
    }

    /** The queue ids of the registered clients, oldest first. */
    ghost function Registered(): seq<int>
      reads this`nodes
    {
      Qids(Clients())
    }

    /** Unlink node `p` of the ring. */
    method Unlink(client: EventClient, ghost p: nat)
      requires Valid() && 0 < p < |nodes| && client == nodes[p]
      modifies this`cltAmt, this`nodes, nodes`next, nodes`prev
      ensures Valid() && nodes == old(nodes)[..p] + old(nodes)[p + 1..]
      ensures client.next == old(client.next)
      ensures Distinct(old(Registered())) ==> Registered() == Without(old(Registered()), client.qid)
    {
      hide Linked, Qids, Without;
      OneLess(nodes, p);
      RegisteredWithout(nodes, p);
      Bypass(client, nodes, p);
      cltAmt := cltAmt - 1;
      nodes := nodes[..p] + nodes[p + 1..];
    }

    /** Take a client off the ring, wherever it is; -1 when it is not on it. */
    method Del(clt: EventClient) returns (res: int, ghost p: nat)
      requires Valid()
      modifies this`cltAmt, this`nodes, nodes`next, nodes`prev
      ensures Valid() && (res == 0 <==> clt in old(nodes) && clt != head) && (res == 0 || res == -1)
      ensures res != 0 ==> nodes == old(nodes) && clt.next == old(clt.next)
      ensures res == 0 ==> 0 < p < |old(nodes)| && old(nodes)[p] == clt
      ensures res == 0 ==> nodes == old(nodes)[..p] + old(nodes)[p + 1..]
      ensures res == 0 && Distinct(old(Registered())) ==> Registered() == Without(old(Registered()), clt.qid)
    {
      hide Qids, Without;
      p := 0;
      if clt == head {
        return -1, 0;
      }
      var client := head.next;
      p := if |nodes| == 1 then 0 else 1;
      while client != head
        invariant Valid() && nodes == old(nodes)
        invariant p < |nodes| && client == nodes[p]
        invariant forall k | 0 < k < (if p == 0 then |nodes| else p) :: nodes[k] != clt
        decreases if p == 0 then 0 else |nodes| - p
      {
        if client == clt {
          Unlink(client, p);
          return 0, p;
        }
        client := client.next;
        p := if p + 1 == |nodes| then 0 else p + 1;
      }
      res := -1;
    }

    /** Where a broadcast stands: the first `k` clients of `all` have had their attempts. */
    ghost predicate Sending(all: seq<EventClient>, os: seq<Outcome>, k: nat, client: EventClient)
      reads this`cltAmt, this`nodes, nodes`next, nodes`prev
    {
      && Valid() && k <= |all| && |all| <= |os|
      && nodes == [head] + Survivors(all[..k], os[..k]) + all[k..]
      && client == if k < |all| then all[k] else head
    }

    lemma NextClient(all: seq<EventClient>, os: seq<Outcome>, k: nat, client: EventClient)
      requires Sending(all, os, k, client) && k < |all|
      ensures client != head && client in nodes
      ensures client.next == if k + 1 < |all| then all[k + 1] else head
      ensures os[k] != Failed ==> nodes == [head] + Survivors(all[..k + 1], os[..k + 1]) + all[k + 1..]
    {
      var p := 1 + |Survivors(all[..k], os[..k])|;
      assert nodes[p] == client;
      assert client.next == nodes[if p + 1 == |nodes| then 0 else p + 1];
      SurvivorsSnoc(all, os, k);
      assert all[k..] == [all[k]] + all[k + 1..];
    }

    lemma Dropped(s: seq<EventClient>, p: nat, all: seq<EventClient>, os: seq<Outcome>, k: nat)
      requires Distinct(s) && k < |all| <= |os| && os[k] == Failed
      requires s == [head] + Survivors(all[..k], os[..k]) + all[k..] && p < |s| && s[p] == all[k]
      ensures s[..p] + s[p + 1..] == [head] + Survivors(all[..k + 1], os[..k + 1]) + all[k + 1..]
    {
      var front := [head] + Survivors(all[..k], os[..k]);
      assert s[|front|] == all[k];
      SurvivorsSnoc(all, os, k);
      hide Survivors;
      assert s[..|front|] == front && s[|front| + 1..] == all[k + 1..];
    }

    /** One attempt that was not interrupted, and on to the next client. A client whose queue failed is
        taken off the ring; its successor is read before that. */
    method Attempt(client: EventClient, outcome: Outcome, pkg: Pkg, ghost all: seq<EventClient>,
                   ghost os: seq<Outcome>, ghost k: nat) returns (next: EventClient)
      requires Sending(all, os, k, client) && k < |all| && outcome == os[k] && outcome != Interrupted
      modifies this`cltAmt, this`nodes, nodes`next, nodes`prev, kernel
      ensures k + 1 <= |all| && Sending(all, os, k + 1, next) && forall j | 0 <= j < |nodes| :: nodes[j] in old(nodes)
      ensures kernel.queues ==
        if outcome == Accepted then Put(old(kernel.queues), all[k].qid, pkg) else old(kernel.queues)
    {
      hide Qids, Without, Registered, Put;
      NextClient(all, os, k, client);
      next := client.next;
      kernel.Send(client.qid, pkg, outcome);
      if outcome == Failed {
        ghost var s := nodes;
        var r, p := Del(client);
        Dropped(s, p, all, os, k);
      }
    }

    lemma FirstClient(os: seq<Outcome>)
      requires Valid() && |Clients()| <= |os|
      ensures head !in Clients()
      ensures var first := if Clients() == [] then head else Clients()[0];
        head.next == first && Sending(Clients(), os, 0, first)
    {
      assert head.next == nodes[if 1 == |nodes| then 0 else 1];
    }

    lemma NotOver(all: seq<EventClient>, os: seq<Outcome>, k: nat, client: EventClient)
      requires Sending(all, os, k, client) && client != head
      ensures k < |all| <= |os| && client == all[k]
    {
    }

    lemma AllSent(all: seq<EventClient>, os: seq<Outcome>, k: nat)
      requires Sending(all, os, k, head) && head !in all
      ensures Valid() && k == |all| && Clients() == Survivors(all, os[..k])
    {
      assert all[..k] == all;
    }

    /** Try every registered client in order. */
    method Broadcast(pkg: Pkg, tries: seq<Outcome>)
      requires Valid() && |Settled(tries)| >= |Clients()|
      modifies this`cltAmt, this`nodes, nodes`next, nodes`prev, kernel
      ensures var n, os := |old(Clients())|, Settled(tries);
        && Valid() && Clients() == Survivors(old(Clients()), os[..n])
        && kernel.queues == Delivered(old(kernel.queues), Qids(old(Clients())), os[..n], pkg)
    {
      hide Sending, Survivors, Delivered, Valid, Settled, Qids, Clients;
      ghost var k, all, os := 0, Clients(), Settled(tries);
      ghost var qids := Qids(all);
      FirstClient(os);
      var client: EventClient := head.next;
      var i := 0;
      assert tries[0..] == tries && os[0..] == os && qids[..0] == [] && os[..0] == [];
      DeliveredNone(kernel.queues, pkg);
      while client != head
        invariant i <= |tries| && k <= |all| <= |os| && Sending(all, os, k, client) && Settled(tries[i..]) == os[k..]
        invariant forall j | 0 <= j < |nodes| :: nodes[j] in old(nodes)
        invariant kernel.queues == Delivered(old(kernel.queues), qids[..k], os[..k], pkg)
        decreases |tries| - i
      {
        NotOver(all, os, k, client);
        SettledStep(tries, i, os, k);
        var outcome := tries[i];
        i := i + 1;
        if outcome != Interrupted {
          DeliveredSnoc(old(kernel.queues), qids, os, pkg, k);
          client := Attempt(client, outcome, pkg, all, os, k);
          k := k + 1;
        } else {
          kernel.Send(client.qid, pkg, outcome);
        }
      }
      AllSent(all, os, k);
      assert qids[..k] == qids;
    }

    /** Send an event to every registered client; the length is checked first. */
    method SendEvent(data: seq<bv8>, serverPid: int, tries: seq<Outcome>) returns (res: int)
      requires Valid() && |Settled(tries)| >= |Clients()|
      modifies this`cltAmt, this`nodes, nodes`next, nodes`prev, kernel
      ensures Valid() && res == if 1 <= |data| <= 2040 then 0 else -1
      ensures res != 0 ==> Clients() == old(Clients()) && kernel.queues == old(kernel.queues)
      ensures var n, os := |old(Clients())|, Settled(tries); res == 0 ==>
        && Clients() == Survivors(old(Clients()), os[..n])
        && Registered() == Step(old(Registered()), EventRing.Broadcast(os[..n]))
        && (Proper(old(Registered())) ==> Proper(Registered()))
        && kernel.queues == Delivered(old(kernel.queues), old(Registered()), os[..n], Pkg(serverPid, 0, data))
    {
      hide Survivors, Delivered, Valid, Settled, Qids, Clients, Proper;
      if |data| == 0 || |data| > MAX_SIZE {
        return -1;
      }
      QidsSurvivors(Clients(), Settled(tries)[..|Clients()|]);
      if Proper(Registered()) {
        StepProper(Registered(), EventRing.Broadcast(Settled(tries)[..|Clients()|]));
      }
      Broadcast(Pkg(serverPid, 0, data), tries);
      res := 0;
    }

    /** Look a queue id up on the ring; the head when it is not there. */
    method FindClient(q: int) returns (client: EventClient, ghost p: nat)
      requires Valid()
      ensures p < |nodes| && client == nodes[p] && (p == 0 <==> q !in Registered())
      ensures 0 < p ==> client.qid == q && client != head
    {
      FirstClient(seq(|Clients()|, _ => Full));
      client := head.next;
      p := if |nodes| == 1 then 0 else 1;
      while client != head
        invariant p < |nodes| && client == nodes[p]
        invariant forall k | 0 < k < (if p == 0 then |nodes| else p) :: nodes[k].qid != q
        decreases if p == 0 then 0 else |nodes| - p
      {
        if client.qid == q {
          assert Registered()[p - 1] == q;
          return;
        }
        client := client.next;
        p := if p + 1 == |nodes| then 0 else p + 1;
      }
      assert forall i | 0 <= i < |Registered()| :: Registered()[i] == nodes[i + 1].qid;
    }

    /** A node is on the ring once. */
    lemma OneNode(p: nat)
      requires Valid() && 0 < p < |nodes|
      ensures forall q | 0 <= q < |nodes| && nodes[q] == nodes[p] :: q == p
      ensures nodes[p] != head && nodes[p] in nodes && Clients() == nodes[1..]
    {
    }

    lemma ClientsTail()
      requires Valid()
      ensures nodes != [] && nodes[0] == head && Clients() == nodes[1..] && cltAmt == |Clients()| == |Registered()|
    {
    }

    /** The client of a queue id, registered now if it was not; null when there is no memory for it. */
    method Admit(q: int, memory: bool) returns (client: EventClient?, ghost p: nat)
      requires Valid()
      modifies this`cltAmt, this`nodes, nodes`next, nodes`prev
      ensures Valid() && (client == null <==> q !in old(Registered()) && !memory)
      ensures Registered() == old(Registered()) + if q !in old(Registered()) && memory then [q] else []
      ensures client != null ==> 0 < p < |nodes| && client == nodes[p] && client.qid == q && client != head
      ensures forall j | 0 <= j < |nodes| :: nodes[j] in old(nodes) || fresh(nodes[j])
    {
      hide Linked, Qids, Valid, Clients;
      client, p := FindClient(q);
      ClientsTail();
      if p != 0 {
        OneNode(p);
      }
      if client == head {
        if !memory {
          return null, 0;
        }
        client := new EventClient(q);
        p := |nodes|;
        QidsAppend(Clients(), client);
        ghost var s := nodes;
        var res := Add(client);
        ClientsTail();
        assert (s + [client])[1..] == s[1..] + [client];
      }
    }

    /** The ring after the reply to client `p` came back with `outcome`. */
    method Settle(client: EventClient, ghost p: nat, outcome: Outcome)
      requires Valid() && 0 < p < |nodes| && client == nodes[p]
      modifies this`cltAmt, this`nodes, nodes`next, nodes`prev
      ensures Valid()
      ensures Registered() ==
        if outcome == Failed then old(Registered())[..p - 1] + old(Registered())[p..] else old(Registered())
    {
      hide Linked, Valid, Qids, Clients;
      if outcome == Failed {
        OneNode(p);
        RegisteredWithout(nodes, p);
        var res, q := Del(client);
        ClientsTail();
      }
    }

    lemma NodeQid(p: nat)
      requires Valid() && 0 < p < |nodes|
      ensures p <= |Registered()| && Registered()[p - 1] == nodes[p].qid
    {
    }

    /** Look the sender of a registration up, or register it while there is room, and reply to it. */
    method Enroll(xid: int, memory: bool, serverPid: int, tries: seq<Outcome>) returns (res: int)
      requires Valid() && Proper(Registered()) && Settled(tries) != []
      modifies this`cltAmt, this`nodes, nodes`next, nodes`prev, kernel
      ensures Valid() && Registered() == Register(old(Registered()), xid, memory, Settled(tries)[0])
      ensures var replied := Heard(old(Registered()), xid, memory) && Settled(tries)[0] == Accepted;
        && kernel.queues == (if replied then Put(old(kernel.queues), xid, Pkg(REG_TO_SERVER, serverPid, []))
                             else old(kernel.queues))
        && res == if replied then 0 else -1
    {
      hide Valid, Linked, Qids, Settled, Register, Registered, Put;
      ClientsTail();
      Unheard(Registered(), xid, memory, Settled(tries)[0]);
      if cltAmt >= MAX_CLIENT {
        return -1;
      }
      ghost var r := Registered();
      var client, p := Admit(xid, memory);
      if client == null {
        return -1;
      }
      NodeQid(p);
      var outcome := kernel.SendRetrying(client.qid, Pkg(REG_TO_SERVER, serverPid, []), tries);
      Heeded(r, Registered(), xid, memory, p - 1, outcome);
      Settle(client, p, outcome);
      res := if outcome == Accepted then 0 else -1;
    }

    /** Serve one registration: wait for a request and answer it. `memory` says whether a new client can be
        allocated, and `tries` what becomes of the reply. */
    method MonitorRequest(looks: seq<Look>, memory: bool, serverPid: int, tries: seq<Outcome>) returns (res: int)
      requires Valid() && Proper(Registered()) && Settled(tries) != []
      requires Waited(looks, qid, REG_TO_SERVER) < |looks|
      modifies this`cltAmt, this`nodes, nodes`next, nodes`prev, kernel
      ensures Valid() && Proper(Registered())
      ensures var l, r, reply := looks[Waited(looks, qid, REG_TO_SERVER)], old(Registered()), Settled(tries)[0];
        var q := QueueOf(l.queues, qid);
        if l.broken || !Receivable(q, REG_TO_SERVER) then
          Registered() == r && kernel.queues == l.queues && res == if l.expired then 1 else -1
        else
          var xid := Received(q, REG_TO_SERVER).xid;
          var taken := l.queues[qid := AfterReceive(q, REG_TO_SERVER)];
          var replied := |r| < 10 && (xid in r || memory) && reply == Accepted;
          && Registered() == Step(r, Registration(xid, memory, reply))
          && kernel.queues == (if replied then Put(taken, xid, Pkg(2, serverPid, [])) else taken)
          && res == (if replied then 0 else -1)
          && (xid != qid ==> View() == AskAck.Step(Seen(l.queues, qid, pid), AskAck.SrvMonitor))
    {
      hide Valid, Linked, Qids, Settled, Register, Registered, Receivable, Proper, Waited;
      var m;
      ghost var i, k;
      res, m, i, k := kernel.Await(qid, REG_TO_SERVER, looks);
      if res != 0 {
        return;
      }
      StepProper(Registered(), Registration(m.value.xid, memory, Settled(tries)[0]));
      res := Enroll(m.value.xid, memory, serverPid, tries);
    }
  }

  /** A server initialised again after a client was added: its count says one client, its ring has none. */
  method InitAgain() returns (server: Server)
    ensures !server.Valid() && server.cltAmt == 1 && server.Clients() == []
  {
    var kernel := new Kernel;
    kernel.queues := map[];
    server := new Server.New(kernel);
    var done := server.Init(0, 0);
    var client := new EventClient(1);
    var res := server.Add(client);
    assert server.nodes == [server.head] + [client];
    done := server.Init(0, 0);
  }
}
