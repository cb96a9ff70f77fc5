/** Payloads that every sender accepts and no receiver does, and when they jam the shared queue. */
module Jamming {
  import opened AskAck
  import opened MessageQueue

  /** The first package of type `t` in the queue is longer than its receiver accepts. */
  predicate Jammed(q: Queue, t: int) {
    var i := Find(q, t);
    i < |q| && TooBig(q[i])
  }

  ghost predicate HoldsBig(q: Queue) {
    exists i :: 0 <= i < |q| && TooBig(q[i])
  }

  /** The call sends a payload of one of the last eight lengths that the senders' checks let through. For an
      answer that takes a request to answer. */
  predicate SendsBig(s: State, e: Event) {
    match e
    case CltSend(pid, data, accepted) => accepted && 2032 < |data| <= 2040
    case SrvSend(data, accepted) => accepted && s.slot != 0 && 2032 < |data| <= 2040
    case _ => false
  }

  /** Some call of the run does. */
  predicate EverSendsBig(s: State, es: seq<Event>)
    decreases |es|
  {
    es != [] && (SendsBig(s, es[0]) || EverSendsBig(Step(s, es[0]), es[1..]))
  }

  // ---- finding packages ----

  lemma {:induction false} FindAppend(q: Queue, m: Pkg, t: int)
    requires Find(q, t) < |q|
    ensures Find(q + [m], t) == Find(q, t)
  {
    if q[0].msgid != t {
      assert (q + [m])[1..] == q[1..] + [m];
      FindAppend(q[1..], m, t);
    }
  }

  lemma RemoveOther(q: Queue, k: nat, t: int)
    requires k < |q| && q[k].msgid != t && Find(q, t) < |q|
    ensures var r := RemoveAt(q, k); Find(r, t) < |r| && r[Find(r, t)] == q[Find(q, t)]
  {
    var i := Find(q, t);
    FindUnique(RemoveAt(q, k), t, if k < i then i - 1 else i);
  }

  lemma FindAbsent(q: Queue, m: Pkg, t: int)
    requires Find(q, t) == |q|
    ensures Find(q + [m], t) == if m.msgid == t then |q| else |q| + 1
  {
    var r := q + [m];
    assert forall j | 0 <= j < |q| :: r[j] == q[j];
    if m.msgid == t {
      FindUnique(r, t, |q|);
    } else {
      assert forall j | 0 <= j < |r| :: r[j].msgid != t;
    }
  }

  // ---- what gets a big package into the queue ----

  lemma AppendBig(q: Queue, m: Pkg)
    ensures HoldsBig(q + [m]) <==> HoldsBig(q) || TooBig(m)
  {
    var r := q + [m];
    assert forall i | 0 <= i < |q| :: r[i] == q[i];
    assert r[|q|] == m;
  }

  lemma RemoveBig(q: Queue, k: nat)
    requires k < |q| && !TooBig(q[k])
    ensures HoldsBig(RemoveAt(q, k)) <==> HoldsBig(q)
  {
    hide TooBig;
    var r := RemoveAt(q, k);
    if HoldsBig(r) {
      var i :| 0 <= i < |r| && TooBig(r[i]);
      assert r[i] == q[if i < k then i else i + 1];
    }
    if HoldsBig(q) {
      var i :| 0 <= i < |q| && TooBig(q[i]);
      assert q[i] == r[if i < k then i else i - 1];
    }
  }

  /** A receive leaves every package that is too big where it is. */
  lemma ReceiveBig(q: Queue, t: int)
    ensures HoldsBig(AfterReceive(q, t)) <==> HoldsBig(q)
  {
    if Receivable(q, t) {
      RemoveBig(q, Find(q, t));
    }
  }

  lemma StepBig(s: State, e: Event)
    ensures HoldsBig(Step(s, e).queue) <==> HoldsBig(s.queue) || SendsBig(s, e)
  {
    hide HoldsBig, AfterReceive;
    match e {
      case CltSend(pid, data, accepted) => AppendBig(s.queue, Pkg(SEND_TO_SERVER, pid, data));
      case SrvSend(data, accepted) => AppendBig(s.queue, Pkg(s.slot, 0, data));
      case CltRegister(eid, accepted) => AppendBig(s.queue, Pkg(REG_TO_SERVER, eid, []));
      case CltRecv(pid) => ReceiveBig(s.queue, pid);
      case SrvMonitor => ReceiveBig(s.queue, REG_TO_SERVER);
      case SrvRecv => ReceiveBig(s.queue, SEND_TO_SERVER);
    }
  }

  lemma {:induction false} RunBig(s: State, es: seq<Event>)
    ensures HoldsBig(Run(s, es).queue) <==> HoldsBig(s.queue) || EverSendsBig(s, es)
    decreases |es|
  {
    if es != [] {
      StepBig(s, es[0]);
      RunBig(Step(s, es[0]), es[1..]);
    }
  }

  /** In every reachable state: a package that cannot be received is in the queue if and only if some accepted
      send or answer of the run had 2033 to 2040 bytes. */
  lemma BigExactly(es: seq<Event>)
    ensures HoldsBig(Run(INIT, es).queue) <==> EverSendsBig(INIT, es)
  {
    RunBig(INIT, es);
  }

  /** Without one, whatever is queued can be received: a receive fails only for want of a package. */
  lemma ShortReceives(es: seq<Event>, t: int)
    requires !EverSendsBig(INIT, es)
    ensures var q := Run(INIT, es).queue;
      !Jammed(q, t) && (Receivable(q, t) <==> exists i :: 0 <= i < |q| && q[i].msgid == t)
  {
    BigExactly(es);
  }

  /** With its slot free the server takes a request exactly when one is queued whose payload, the first's,
      is at most 2032 bytes long. */
  lemma RecvExactly(s: State)
    requires s.slot == 0
    ensures Step(s, SrvRecv).queue != s.queue
       <==> var i := Find(s.queue, SEND_TO_SERVER); i < |s.queue| && |s.queue[i].data| <= 2032
    ensures Step(s, SrvRecv).queue == s.queue <==> Step(s, SrvRecv) == s
  {
    assert Receivable(s.queue, SEND_TO_SERVER) ==> |AfterReceive(s.queue, SEND_TO_SERVER)| == |s.queue| - 1;
  }

  // ---- when a type jams ----

  lemma AppendJams(q: Queue, m: Pkg)
    ensures Jammed(q + [m], m.msgid) <==> Jammed(q, m.msgid) || (Find(q, m.msgid) == |q| && TooBig(m))
  {
    hide Find;
    if Find(q, m.msgid) < |q| {
      FindAppend(q, m, m.msgid);
    } else {
      FindAbsent(q, m, m.msgid);
    }
  }

  /** A request jams its type if and only if it was jammed before, or no request was queued, the queue took this
      one, and it has 2033 to 2040 bytes. */
  lemma JamExactly(s: State, pid: int, data: seq<bv8>, accepted: bool)
    ensures Jammed(Step(s, CltSend(pid, data, accepted)).queue, SEND_TO_SERVER)
       <==> || Jammed(s.queue, SEND_TO_SERVER)
            || (Find(s.queue, SEND_TO_SERVER) == |s.queue| && accepted && 2032 < |data| <= 2040)
  {
    AppendJams(s.queue, Pkg(SEND_TO_SERVER, pid, data));
  }

  /** So does an answer with the type of its client. */
  lemma AnswerJamExactly(s: State, data: seq<bv8>, accepted: bool)
    requires s.slot != 0
    ensures Jammed(Step(s, SrvSend(data, accepted)).queue, s.slot)
       <==> || Jammed(s.queue, s.slot)
            || (Find(s.queue, s.slot) == |s.queue| && accepted && 2032 < |data| <= 2040)
  {
    AppendJams(s.queue, Pkg(s.slot, 0, data));
  }

  /** A call that takes packages out of the queue or frees the server's slot, and puts nothing in. */
  predicate Drains(e: Event) {
    e.SrvRecv? || e.SrvMonitor? || (e.CltRecv? && PidsOk(e)) || (e.SrvSend? && !e.accepted)
  }

  /** The types in the queue and the slot are those that clients with proper process ids cause. */
  ghost predicate TypesOk(s: State) {
    && (s.slot == 0 || s.slot > REG_TO_SERVER)
    && forall m | m in s.queue :: m.msgid >= SEND_TO_SERVER
         && (m.msgid == SEND_TO_SERVER ==> m.xid > REG_TO_SERVER) && (m.msgid == REG_TO_SERVER ==> !TooBig(m))
  }

  lemma StepTypesOk(s: State, e: Event)
    requires TypesOk(s) && PidsOk(e)
    ensures TypesOk(Step(s, e))
  {
    hide Find;
    assert Receivable(s.queue, SEND_TO_SERVER) ==> Received(s.queue, SEND_TO_SERVER) in s.queue;
    forall m | m in Step(s, e).queue && m !in s.queue
      ensures e.CltSend? || e.CltRegister? || (e.SrvSend? && m.msgid == s.slot)
    {
    }
  }

  lemma {:induction false} RunTypesOk(s: State, es: seq<Event>)
    requires TypesOk(s) && forall e | e in es :: PidsOk(e)
    ensures TypesOk(Run(s, es))
    decreases |es|
  {
    if es != [] {
      StepTypesOk(s, es[0]);
      RunTypesOk(Step(s, es[0]), es[1..]);
    }
  }

  /** Taking out a package ahead of package `i` moves that one up. */
  lemma MovesUp(q: Queue, t: int, i: nat)
    requires i < |q| && Find(q, t) < i && !TooBig(q[Find(q, t)])
    ensures Receivable(q, t) && i - 1 < |AfterReceive(q, t)| && AfterReceive(q, t)[i - 1] == q[i]
  {
  }

  lemma RunTwo(s: State, es: seq<Event>)
    requires 1 <= |es| <= 2
    ensures Run(s, es) == if |es| == 1 then Step(s, es[0]) else Step(Step(s, es[0]), es[1])
  {
    hide Step;
    if |es| == 2 {
      var t := Step(s, es[0]);
      assert es[1..][0] == es[1] && es[1..][1..] == [];
      assert Run(t, es[1..]) == Run(Step(t, es[1]), []);
    }
  }

  lemma TakesFirst(s: State, t: int)
    requires Receivable(s.queue, t)
    ensures Step(s, CltRecv(t)).queue == AfterReceive(s.queue, t)
    ensures t == SEND_TO_SERVER ==> Step(Step(s, SrvSend([0], false)), SrvRecv).queue == AfterReceive(s.queue, t)
  {
  }

  lemma {:induction false} RunConcat(s: State, es: seq<Event>, fs: seq<Event>)
    ensures Run(s, es + fs) == Run(Run(s, es), fs)
    decreases |es|
  {
    if es == [] {
      assert es + fs == fs;
    } else {
      assert (es + fs)[1..] == es[1..] + fs;
      RunConcat(Step(s, es[0]), es[1..], fs);
    }
  }

  /** Calls that take out the packages ahead of one that is too big, until its type is jammed. */
  lemma {:induction false} DrainToJam(s: State, i: nat) returns (fs: seq<Event>, t: int)
    requires TypesOk(s) && i < |s.queue| && TooBig(s.queue[i])
    ensures (forall f | f in fs :: Drains(f)) && Jammed(Run(s, fs).queue, t)
    decreases i
  {
    t := s.queue[i].msgid;
    assert s.queue[i] in s.queue;
    var j := Find(s.queue, t);
    if TooBig(s.queue[j]) {
      fs := [];
    } else {
      MovesUp(s.queue, t, i);
      var first := if t != SEND_TO_SERVER then [CltRecv(t)] else [SrvSend([0], false), SrvRecv];
      RunTwo(s, first);
      TakesFirst(s, t);
      var gs;
      RunTypesOk(s, first);
      gs, t := DrainToJam(Run(s, first), i - 1);
      fs := first + gs;
      RunConcat(s, first, gs);
    }
  }

  lemma {:induction false} DrainingSendsNothing(s: State, fs: seq<Event>)
    requires forall f | f in fs :: Drains(f)
    ensures !EverSendsBig(s, fs)
    decreases |fs|
  {
    if fs != [] {
      assert Drains(fs[0]);
      DrainingSendsNothing(Step(s, fs[0]), fs[1..]);
    }
  }

  /** The calls `fs` only drain and bring the package of type `t` to the head of its type, too big. */
  ghost predicate JamsBy(s: State, fs: seq<Event>, t: int) {
    (forall f | f in fs :: Drains(f)) && Jammed(Run(s, fs).queue, t)
  }

  /** Every run, exactly: mere receiving can run into a jam if and only if some accepted send or answer had 2033
      to 2040 bytes. */
  lemma JamsExactly(es: seq<Event>)
    requires forall e | e in es :: PidsOk(e)
    ensures (exists fs, t :: JamsBy(Run(INIT, es), fs, t)) <==> EverSendsBig(INIT, es)
  {
    var s := Run(INIT, es);
    BigExactly(es);
    if EverSendsBig(INIT, es) {
      RunTypesOk(INIT, es);
      var i :| 0 <= i < |s.queue| && TooBig(s.queue[i]);
      var fs, t := DrainToJam(s, i);
      assert JamsBy(s, fs, t);
    }
    forall fs, t | JamsBy(s, fs, t)
      ensures HoldsBig(s.queue)
    {
      DrainingSendsNothing(s, fs);
      RunBig(s, fs);
    }
  }

  // ---- a jam lasts ----

  lemma ReceiveKeepsJam(q: Queue, u: int, t: int)
    requires Jammed(q, t)
    ensures Jammed(AfterReceive(q, u), t)
  {
    hide Find;
    if Receivable(q, u) {
      RemoveOther(q, Find(q, u), t);
    }
  }

  lemma StepJammed(s: State, e: Event, t: int)
    requires Jammed(s.queue, t)
    ensures Jammed(Step(s, e).queue, t)
  {
    hide Find, AfterReceive;
    match e {
      case CltSend(pid, data, accepted) => FindAppend(s.queue, Pkg(SEND_TO_SERVER, pid, data), t);
      case SrvSend(data, accepted) => FindAppend(s.queue, Pkg(s.slot, 0, data), t);
      case CltRegister(eid, accepted) => FindAppend(s.queue, Pkg(REG_TO_SERVER, eid, []), t);
      case CltRecv(pid) => ReceiveKeepsJam(s.queue, pid, t);
      case SrvMonitor => ReceiveKeepsJam(s.queue, REG_TO_SERVER, t);
      case SrvRecv => ReceiveKeepsJam(s.queue, SEND_TO_SERVER, t);
    }
  }

  /** Once jammed for a type, the queue stays so in every run, and no package of that type is ever received
      again: requests for type 1, and the answers to client `p` for type `p`. */
  lemma {:induction false} JamForever(s: State, es: seq<Event>, t: int)
    requires Jammed(s.queue, t)
    ensures Jammed(Run(s, es).queue, t) && !Receivable(Run(s, es).queue, t)
    decreases |es|
  {
    if es != [] {
      StepJammed(s, es[0], t);
      JamForever(Step(s, es[0]), es[1..], t);
    }
  }
}
