/** The ask and acknowledge protocol: one server with a slot for one request, and any number of clients,
    over one queue that registrations share. */
module AskAck {
  import opened MessageQueue

  /** The shared queue, and the client the server owes an answer to (0 for none). */
  datatype State = State(queue: Queue, slot: int)

  /** One call by somebody. `accepted` is what the queue made of a send: false when it was full or failed. */
  datatype Event =
    | CltSend(pid: int, data: seq<bv8>, accepted: bool)
    | SrvRecv
    | SrvSend(data: seq<bv8>, accepted: bool)
    | CltRecv(pid: int)
    | CltRegister(eid: int, accepted: bool)
    | SrvMonitor

  const INIT: State := State([], 0)

  function Step(s: State, e: Event): State {
    match e
    case CltSend(pid, data, accepted) =>
      if Sendable(data) && accepted then s.(queue := s.queue + [Pkg(SEND_TO_SERVER, pid, data)]) else s
    case SrvRecv =>
      if s.slot == 0 && Receivable(s.queue, SEND_TO_SERVER) then
        State(AfterReceive(s.queue, SEND_TO_SERVER), Received(s.queue, SEND_TO_SERVER).xid)
      else
        s
    case SrvSend(data, accepted) =>
      if Sendable(data) && s.slot != 0 then
        State(if accepted then s.queue + [Pkg(s.slot, 0, data)] else s.queue, 0)
      else
        s
    case CltRecv(pid) => s.(queue := AfterReceive(s.queue, pid))
    case CltRegister(eid, accepted) =>
      if accepted then s.(queue := s.queue + [Pkg(REG_TO_SERVER, eid, [])]) else s
    case SrvMonitor => s.(queue := AfterReceive(s.queue, REG_TO_SERVER))
  }

  function Run(s: State, es: seq<Event>): State
    decreases |es|
  {
    if es == [] then s else Run(Step(s, es[0]), es[1..])
  }

  /** Client process ids are above the two message types the server reads. */
  predicate PidsOk(e: Event) {
    (e.CltSend? || e.CltRecv?) ==> e.pid > REG_TO_SERVER
  }

  // ---- history ----

  /** A package with the number of the request it asks or answers. */
  datatype Tagged = Tagged(pkg: Pkg, tag: nat)

  /** The state with its history: `owner[t]` made request `t`; the server holds request `held` when its slot
      is taken; `acked` lists the answers received, by whom and to which request; `lost` the requests
      whose answer the queue refused. */
  datatype History = History(queue: seq<Tagged>, slot: int, held: nat, owner: seq<int>,
                             acked: seq<(int, nat)>, lost: set<nat>)

  const START: History := History([], 0, 0, [], [], {})

  function Pkgs(q: seq<Tagged>): (ps: Queue)
    ensures |ps| == |q| && forall i | 0 <= i < |q| :: ps[i] == q[i].pkg
  {
    if q == [] then [] else [q[0].pkg] + Pkgs(q[1..])
  }

  function Forget(h: History): State {
    State(Pkgs(h.queue), h.slot)
  }

  function TakeFirst(q: seq<Tagged>, t: int): seq<Tagged> {
    if Receivable(Pkgs(q), t) then RemoveAt(q, Find(Pkgs(q), t)) else q
  }

  function First(q: seq<Tagged>, t: int): Tagged
    requires Receivable(Pkgs(q), t)
  {
    q[Find(Pkgs(q), t)]
  }

  function Record(h: History, e: Event): History {
    match e
    case CltSend(pid, data, accepted) =>
      if Sendable(data) && accepted then
        h.(queue := h.queue + [Tagged(Pkg(SEND_TO_SERVER, pid, data), |h.owner|)], owner := h.owner + [pid])
      else
        h
    case SrvRecv =>
      if h.slot == 0 && Receivable(Pkgs(h.queue), SEND_TO_SERVER) then
        var m := First(h.queue, SEND_TO_SERVER);
        h.(queue := TakeFirst(h.queue, SEND_TO_SERVER), slot := m.pkg.xid, held := m.tag)
      else
        h
    case SrvSend(data, accepted) =>
      if Sendable(data) && h.slot != 0 then
        if accepted then h.(queue := h.queue + [Tagged(Pkg(h.slot, 0, data), h.held)], slot := 0)
        else h.(slot := 0, lost := h.lost + {h.held})
      else
        h
    case CltRecv(pid) =>
      if Receivable(Pkgs(h.queue), pid) then
        h.(queue := TakeFirst(h.queue, pid), acked := h.acked + [(pid, First(h.queue, pid).tag)])
      else
        h
    case CltRegister(eid, accepted) =>
      if accepted then h.(queue := h.queue + [Tagged(Pkg(REG_TO_SERVER, eid, []), 0)]) else h
    case SrvMonitor => h.(queue := TakeFirst(h.queue, REG_TO_SERVER))
  }

  function RecordAll(h: History, es: seq<Event>): History
    decreases |es|
  {
    if es == [] then h else RecordAll(Record(h, es[0]), es[1..])
  }

  lemma PkgsAppend(q: seq<Tagged>, m: Tagged)
    ensures Pkgs(q + [m]) == Pkgs(q) + [m.pkg]
  {
    hide Pkgs;
  }

  lemma PkgsTakeFirst(q: seq<Tagged>, t: int)
    ensures Pkgs(TakeFirst(q, t)) == AfterReceive(Pkgs(q), t)
  {
    hide Pkgs, Find;
  }

  lemma FirstPkg(q: seq<Tagged>, t: int)
    ensures Receivable(Pkgs(q), t) ==> First(q, t).pkg == Received(Pkgs(q), t)
  {
  }

  lemma NothingTaken(q: seq<Tagged>, t: int)
    ensures !Receivable(Pkgs(q), t) ==> AfterReceive(Pkgs(q), t) == Pkgs(q)
  {
  }

  /** The history only watches: forgetting it gives the protocol's own step. */
  lemma RecordIsStep(h: History, e: Event)
    ensures Forget(Record(h, e)) == Step(Forget(h), e)
  {
    hide Pkgs, TakeFirst, AfterReceive, Receivable, Sendable;
    PkgsTakeFirst(h.queue, SEND_TO_SERVER);
    PkgsTakeFirst(h.queue, REG_TO_SERVER);
    match e {
      case CltSend(pid, data, accepted) =>
        PkgsAppend(h.queue, Tagged(Pkg(SEND_TO_SERVER, pid, data), |h.owner|));
      case SrvSend(data, accepted) =>
        PkgsAppend(h.queue, Tagged(Pkg(h.slot, 0, data), h.held));
      case CltRecv(pid) =>
        PkgsTakeFirst(h.queue, pid);
        NothingTaken(h.queue, pid);
      case CltRegister(eid, accepted) =>
        PkgsAppend(h.queue, Tagged(Pkg(REG_TO_SERVER, eid, []), 0));
      case SrvRecv =>
        FirstPkg(h.queue, SEND_TO_SERVER);
      case SrvMonitor =>
    }
  }

  lemma {:induction false} RecordAllIsRun(h: History, es: seq<Event>)
    ensures Forget(RecordAll(h, es)) == Run(Forget(h), es)
    decreases |es|
  {
    if es != [] {
      RecordIsStep(h, es[0]);
      RecordAllIsRun(Record(h, es[0]), es[1..]);
    }
  }

  // ---- the pipeline of one client ----

  /** The requests of a client, the answers to it, and the requests of all clients. */
  datatype Kind = Ask(p: int) | Ack(p: int) | AnyAsk

  predicate Is(m: Pkg, k: Kind) {
    match k
    case Ask(p) => m.msgid == SEND_TO_SERVER && m.xid == p
    case Ack(p) => m.msgid == p
    case AnyAsk => m.msgid == SEND_TO_SERVER
  }

  /** The request numbers of the packages of a kind, in queue order. */
  function Select(q: seq<Tagged>, k: Kind): seq<nat> {
    if q == [] then [] else (if Is(q[0].pkg, k) then [q[0].tag] else []) + Select(q[1..], k)
  }

  function AckedBy(log: seq<(int, nat)>, p: int): seq<nat> {
    if log == [] then [] else (if log[0].0 == p then [log[0].1] else []) + AckedBy(log[1..], p)
  }

  function Held(h: History, p: int): seq<nat> {
    if h.slot == p then [h.held] else []
  }

  /** All requests of client `p` on their way, oldest first: answered and received, answered and queued,
      held by the server, still queued. */
  function Pipeline(h: History, p: int): seq<nat> {
    AckedBy(h.acked, p) + Select(h.queue, Ack(p)) + Held(h, p) + Select(h.queue, Ask(p))
  }

  ghost predicate Increasing(s: seq<nat>) {
    forall i, j | 0 <= i < j < |s| :: s[i] < s[j]
  }

  /** The numbers are `p`'s own requests, in the order `p` made them, none twice. */
  ghost predicate OwnInOrder(h: History, p: int, s: seq<nat>) {
    Increasing(s) && forall t | t in s :: t < |h.owner| && h.owner[t] == p
  }

  ghost predicate Safe(h: History) {
    && (forall p | p > REG_TO_SERVER :: OwnInOrder(h, p, Pipeline(h, p)))
    && (h.slot == 0 || h.slot > REG_TO_SERVER)
    && (forall m | m in h.queue && m.pkg.msgid == SEND_TO_SERVER :: m.pkg.xid > REG_TO_SERVER)
    && (forall t | 0 <= t < |h.owner| :: h.owner[t] > REG_TO_SERVER)
    && (forall t | 0 <= t < |h.owner| :: t in Pipeline(h, h.owner[t]) || t in h.lost)
  }

  lemma SelectStep(m: Tagged, q: seq<Tagged>, k: Kind)
    ensures Select([m] + q, k) == (if Is(m.pkg, k) then [m.tag] else []) + Select(q, k)
  {
    assert ([m] + q)[1..] == q;
  }

  lemma {:induction false} SelectNone(q: seq<Tagged>, k: Kind)
    requires forall m | m in q :: !Is(m.pkg, k)
    ensures Select(q, k) == []
  {
    if q != [] {
      SelectNone(q[1..], k);
    }
  }

  lemma {:induction false} SelectConcat(q: seq<Tagged>, r: seq<Tagged>, k: Kind)
    ensures Select(q + r, k) == Select(q, k) + Select(r, k)
  {
    hide Select, Is;
    if q == [] {
      SelectNone(q, k);
      assert q + r == r;
    } else {
      SelectConcat(q[1..], r, k);
      SelectStep(q[0], q[1..] + r, k);
      SelectStep(q[0], q[1..], k);
      assert [q[0]] + (q[1..] + r) == q + r && [q[0]] + q[1..] == q;
    }
  }

  lemma {:induction false} AckedAppend(a: seq<(int, nat)>, x: (int, nat), p: int)
    ensures AckedBy(a + [x], p) == AckedBy(a, p) + if x.0 == p then [x.1] else []
  {
    if a == [] {
      assert a + [x] == [x] && [x][1..] == [];
    } else {
      AckedAppend(a[1..], x, p);
      assert (a + [x])[1..] == a[1..] + [x];
    }
  }

  lemma SelectOne(m: Tagged, k: Kind)
    ensures Select([m], k) == if Is(m.pkg, k) then [m.tag] else []
  {
    assert [m][1..] == [];
  }

  lemma SelectAppend(q: seq<Tagged>, m: Tagged, k: Kind)
    ensures Select(q + [m], k) == Select(q, k) + if Is(m.pkg, k) then [m.tag] else []
  {
    hide Select, Is;
    SelectConcat(q, [m], k);
    SelectOne(m, k);
  }

  /** Taking a package out of the queue takes its number out of its own selections, at its place. */
  lemma SelectAround(q: seq<Tagged>, i: nat, k: Kind)
    requires i < |q|
    ensures Select(q, k) == Select(q[..i], k) + (if Is(q[i].pkg, k) then [q[i].tag] else []) + Select(q[i + 1..], k)
    ensures Select(RemoveAt(q, i), k) == Select(q[..i], k) + Select(q[i + 1..], k)
  {
    hide Select, Is;
    SelectConcat(q[..i] + [q[i]], q[i + 1..], k);
    SelectAppend(q[..i], q[i], k);
    SelectConcat(q[..i], q[i + 1..], k);
    assert q == q[..i] + [q[i]] + q[i + 1..];
  }

  /** Receiving by type takes the first number of the selection the package belongs to. */
  lemma SelectTaken(q: seq<Tagged>, t: int, k: Kind)
    requires Receivable(Pkgs(q), t)
    requires forall m: Pkg | Is(m, k) && Is(First(q, t).pkg, k) :: m.msgid == t
    ensures Select(q, k) == (if Is(First(q, t).pkg, k) then [First(q, t).tag] else []) + Select(TakeFirst(q, t), k)
  {
    var i := Find(Pkgs(q), t);
    hide Select, Pkgs, Find;
    SelectAround(q, i, k);
    if Is(q[i].pkg, k) {
      forall m | m in q[..i]
        ensures !Is(m.pkg, k)
      {
        var j :| 0 <= j < i && q[j] == m;
        assert Pkgs(q)[j].msgid != t;
      }
      SelectNone(q[..i], k);
    }
  }

  // ---- what one step does to a pipeline ----

  lemma FirstType(q: seq<Tagged>, t: int)
    requires Receivable(Pkgs(q), t)
    ensures First(q, t).pkg.msgid == t && First(q, t) in q
  {
  }

  lemma AskTaken(h: History, p: int)
    requires p > REG_TO_SERVER && h.slot == 0 && Receivable(Pkgs(h.queue), SEND_TO_SERVER)
    ensures Pipeline(Record(h, SrvRecv), p) == Pipeline(h, p)
  {
    hide Select, Pkgs, TakeFirst, Receivable, First;
    FirstType(h.queue, SEND_TO_SERVER);
    SelectTaken(h.queue, SEND_TO_SERVER, Ack(p));
    SelectTaken(h.queue, SEND_TO_SERVER, Ask(p));
  }

  lemma AckTaken(h: History, pid: int, p: int)
    requires p > REG_TO_SERVER && pid > REG_TO_SERVER && Receivable(Pkgs(h.queue), pid)
    ensures Pipeline(Record(h, CltRecv(pid)), p) == Pipeline(h, p)
  {
    hide Select, Pkgs, TakeFirst, Receivable, First, AckedBy;
    FirstType(h.queue, pid);
    SelectTaken(h.queue, pid, Ack(p));
    SelectTaken(h.queue, pid, Ask(p));
    AckedAppend(h.acked, (pid, First(h.queue, pid).tag), p);
  }

  lemma RegTaken(h: History, p: int)
    requires p > REG_TO_SERVER
    ensures Pipeline(Record(h, SrvMonitor), p) == Pipeline(h, p)
  {
    hide Select, Pkgs, Receivable, First;
    if Receivable(Pkgs(h.queue), REG_TO_SERVER) {
      FirstType(h.queue, REG_TO_SERVER);
      SelectTaken(h.queue, REG_TO_SERVER, Ack(p));
      SelectTaken(h.queue, REG_TO_SERVER, Ask(p));
    }
  }

  /** What becomes of the requests of client `p` in one step: a new one goes to the end, the held one is
      lost when its answer is refused, and otherwise they only move along. */
  ghost predicate Moved(h: History, e: Event, p: int) {
    var now := Pipeline(Record(h, e), p);
    if e.CltSend? && e.pid == p && Sendable(e.data) && e.accepted then
      now == Pipeline(h, p) + [|h.owner|]
    else if e.SrvSend? && Sendable(e.data) && h.slot == p && !e.accepted then
      now == AckedBy(h.acked, p) + Select(h.queue, Ack(p)) + Select(h.queue, Ask(p))
    else
      now == Pipeline(h, p)
  }

  lemma AskMoves(h: History, pid: int, data: seq<bv8>, p: int)
    requires p > REG_TO_SERVER
    ensures Moved(h, CltSend(pid, data, true), p)
  {
    hide Select, AckedBy, Sendable;
    var m := Tagged(Pkg(SEND_TO_SERVER, pid, data), |h.owner|);
    SelectAppend(h.queue, m, Ack(p));
    SelectAppend(h.queue, m, Ask(p));
  }

  lemma AckMoves(h: History, data: seq<bv8>, accepted: bool, p: int)
    requires p > REG_TO_SERVER && (h.slot == 0 || h.slot > REG_TO_SERVER)
    ensures Moved(h, SrvSend(data, accepted), p)
  {
    hide Select, AckedBy, Sendable;
    var m := Tagged(Pkg(h.slot, 0, data), h.held);
    SelectAppend(h.queue, m, Ack(p));
    SelectAppend(h.queue, m, Ask(p));
  }

  lemma RegMoves(h: History, eid: int, p: int)
    requires p > REG_TO_SERVER
    ensures Moved(h, CltRegister(eid, true), p)
  {
    hide Select, AckedBy;
    var m := Tagged(Pkg(REG_TO_SERVER, eid, []), 0);
    SelectAppend(h.queue, m, Ack(p));
    SelectAppend(h.queue, m, Ask(p));
  }

  lemma StepMoves(h: History, e: Event, p: int)
    requires p > REG_TO_SERVER && PidsOk(e) && (h.slot == 0 || h.slot > REG_TO_SERVER)
    ensures Moved(h, e, p)
  {
    hide Pipeline, TakeFirst, Receivable, First, Pkgs, Sendable;
    match e {
      case CltSend(pid, data, accepted) =>
        if accepted {
          AskMoves(h, pid, data, p);
        }
      case SrvRecv =>
        if h.slot == 0 && Receivable(Pkgs(h.queue), SEND_TO_SERVER) {
          AskTaken(h, p);
        }
      case SrvSend(data, accepted) =>
        AckMoves(h, data, accepted, p);
      case CltRecv(pid) =>
        if Receivable(Pkgs(h.queue), pid) {
          AckTaken(h, pid, p);
        }
      case CltRegister(eid, accepted) =>
        if accepted {
          RegMoves(h, eid, p);
        }
      case SrvMonitor =>
        RegTaken(h, p);
    }
  }

  lemma OwnAppend(h: History, g: History, p: int, s: seq<nat>)
    requires OwnInOrder(h, p, s) && g.owner == h.owner + [p]
    ensures OwnInOrder(g, p, s + [|h.owner|])
  {
    forall i | 0 <= i < |s|
      ensures s[i] < |h.owner|
    {
      assert s[i] in s;
    }
  }

  lemma OwnGrown(h: History, g: History, p: int, s: seq<nat>)
    requires OwnInOrder(h, p, s) && h.owner <= g.owner
    ensures OwnInOrder(g, p, s)
  {
  }

  lemma OwnWithout(h: History, p: int, a: seq<nat>, b: seq<nat>, c: seq<nat>)
    requires OwnInOrder(h, p, a + b + c)
    ensures OwnInOrder(h, p, a + c)
  {
    var s, t := a + b + c, a + c;
    assert forall i | 0 <= i < |t| :: t[i] == s[if i < |a| then i else i + |b|] && t[i] in s;
  }

  lemma OwnersGrow(h: History, e: Event)
    ensures Record(h, e).owner ==
      if e.CltSend? && Sendable(e.data) && e.accepted then h.owner + [e.pid] else h.owner
  {
  }

  lemma PipelineParts(h: History, p: int)
    ensures Pipeline(h, p) == (AckedBy(h.acked, p) + Select(h.queue, Ack(p))) + Held(h, p) + Select(h.queue, Ask(p))
    ensures h.slot == p ==> Held(h, p) == [h.held]
  {
  }

  lemma StepKeepsOrder(h: History, e: Event, p: int)
    requires PidsOk(e) && p > REG_TO_SERVER && (h.slot == 0 || h.slot > REG_TO_SERVER)
    requires OwnInOrder(h, p, Pipeline(h, p))
    ensures OwnInOrder(Record(h, e), p, Pipeline(Record(h, e), p))
  {
    hide Pipeline, Record, Sendable, OwnInOrder, Held;
    var g := Record(h, e);
    StepMoves(h, e, p);
    OwnersGrow(h, e);
    if e.CltSend? && e.pid == p && Sendable(e.data) && e.accepted {
      OwnAppend(h, g, p, Pipeline(h, p));
    } else if e.SrvSend? && Sendable(e.data) && h.slot == p && !e.accepted {
      PipelineParts(h, p);
      OwnWithout(h, p, AckedBy(h.acked, p) + Select(h.queue, Ack(p)), Held(h, p), Select(h.queue, Ask(p)));
      OwnGrown(h, g, p, Pipeline(g, p));
    } else {
      OwnGrown(h, g, p, Pipeline(h, p));
    }
  }

  // ---- safety of every run ----

  lemma LostGrows(h: History, e: Event)
    ensures Record(h, e).lost ==
      if e.SrvSend? && Sendable(e.data) && h.slot != 0 && !e.accepted then h.lost + {h.held} else h.lost
  {
  }

  /** Requests are accounted for after a step. */
  lemma StepKeepsTrack(h: History, e: Event, t: nat)
    requires Safe(h) && PidsOk(e) && t < |Record(h, e).owner|
    ensures var g := Record(h, e); g.owner[t] > REG_TO_SERVER && (t in Pipeline(g, g.owner[t]) || t in g.lost)
  {
    var g := Record(h, e);
    OwnersGrow(h, e);
    LostGrows(h, e);
    assert t < |h.owner| ==> t in Pipeline(h, h.owner[t]) || t in h.lost;
    hide Pipeline, Sendable, Record, Held, OwnInOrder;
    StepMoves(h, e, g.owner[t]);
    PipelineParts(h, g.owner[t]);
  }

  lemma StepKeepsQueue(h: History, e: Event)
    requires Safe(h) && PidsOk(e)
    ensures var g := Record(h, e);
      && (g.slot == 0 || g.slot > REG_TO_SERVER)
      && (forall m | m in g.queue && m.pkg.msgid == SEND_TO_SERVER :: m.pkg.xid > REG_TO_SERVER)
  {
    hide Pipeline, Find, Pkgs, OwnInOrder;
    if e.SrvRecv? && Receivable(Pkgs(h.queue), SEND_TO_SERVER) {
      FirstType(h.queue, SEND_TO_SERVER);
    }
  }

  lemma StepSafe(h: History, e: Event)
    requires Safe(h) && PidsOk(e)
    ensures Safe(Record(h, e))
  {
    hide Pipeline, Record, OwnInOrder;
    StepKeepsQueue(h, e);
    forall p | p > REG_TO_SERVER
      ensures OwnInOrder(Record(h, e), p, Pipeline(Record(h, e), p))
    {
      StepKeepsOrder(h, e, p);
    }
    forall t | 0 <= t < |Record(h, e).owner|
      ensures Record(h, e).owner[t] > REG_TO_SERVER
      ensures t in Pipeline(Record(h, e), Record(h, e).owner[t]) || t in Record(h, e).lost
    {
      StepKeepsTrack(h, e, t);
    }
  }

  lemma {:induction false} RunSafe(h: History, es: seq<Event>)
    requires Safe(h) && forall e | e in es :: PidsOk(e)
    ensures Safe(RecordAll(h, es))
    decreases |es|
  {
    hide Safe, Record;
    if es != [] {
      StepSafe(h, es[0]);
      RunSafe(Record(h, es[0]), es[1..]);
    }
  }

  lemma ReceivedInOrder(h: History, p: int)
    requires Safe(h) && p > REG_TO_SERVER
    ensures OwnInOrder(h, p, AckedBy(h.acked, p))
  {
    hide Select;
    assert OwnInOrder(h, p, Pipeline(h, p));
    var rest := Select(h.queue, Ack(p)) + Held(h, p) + Select(h.queue, Ask(p));
    assert Pipeline(h, p) == AckedBy(h.acked, p) + rest + [];
    OwnWithout(h, p, AckedBy(h.acked, p), rest, []);
    assert AckedBy(h.acked, p) + [] == AckedBy(h.acked, p);
  }

  lemma IncreasingParts(a: seq<nat>, b: seq<nat>)
    requires Increasing(a + b)
    ensures Increasing(b) && forall s, t | s in a && t in b :: s < t
  {
    assert forall i | 0 <= i < |b| :: b[i] == (a + b)[|a| + i];
    assert forall i | 0 <= i < |a| :: a[i] == (a + b)[i];
  }

  /** What the numbers a client received say about the log of all receives. */
  lemma {:induction false} AckedAt(log: seq<(int, nat)>, p: int)
    ensures forall i | 0 <= i < |log| && log[i].0 == p :: log[i].1 in AckedBy(log, p)
    ensures Increasing(AckedBy(log, p)) ==>
      forall i, j | 0 <= i < j < |log| && log[i].0 == p && log[j].0 == p :: log[i].1 < log[j].1
  {
    if log != [] {
      var rest, head := AckedBy(log[1..], p), if log[0].0 == p then [log[0].1] else [];
      AckedAt(log[1..], p);
      assert AckedBy(log, p) == head + rest;
      forall i | 0 <= i < |log| && log[i].0 == p
        ensures log[i].1 in AckedBy(log, p)
      {
        assert 0 < i ==> log[1..][i - 1] == log[i];
      }
      if Increasing(AckedBy(log, p)) {
        IncreasingParts(head, rest);
        forall i, j | 0 <= i < j < |log| && log[i].0 == p && log[j].0 == p
          ensures log[i].1 < log[j].1
        {
          assert log[1..][j - 1] == log[j] && log[j].1 in rest;
          if 0 < i {
            assert log[1..][i - 1] == log[i];
          } else {
            assert log[0].1 in head;
          }
        }
      }
    }
  }

  /** Over every interleaving of one server and any clients: the answers a client has received answer its
      own requests, in the order it made them, none twice; and no request vanishes but by the
      refusal of its answer. */
  lemma AskAckSafety(es: seq<Event>, p: int)
    requires p > REG_TO_SERVER && forall e | e in es :: PidsOk(e)
    ensures var h := RecordAll(START, es);
      && Forget(h) == Run(INIT, es)
      && OwnInOrder(h, p, AckedBy(h.acked, p))
      && (forall t | 0 <= t < |h.owner| && h.owner[t] == p :: t in Pipeline(h, p) || t in h.lost)
    ensures var h := RecordAll(START, es);
      && (forall i | 0 <= i < |h.acked| && h.acked[i].0 == p :: h.acked[i].1 < |h.owner| && h.owner[h.acked[i].1] == p)
      && (forall i, j | 0 <= i < j < |h.acked| && h.acked[i].0 == p && h.acked[j].0 == p ::
            h.acked[i].1 < h.acked[j].1)
  {
    RecordAllIsRun(START, es);
    RunSafe(START, es);
    var h := RecordAll(START, es);
    ReceivedInOrder(h, p);
    AckedAt(h.acked, p);
  }

  // ---- first come, first served ----

  /** The number of the request the server takes in one call. */
  function TookOne(h: History, e: Event): seq<nat> {
    if e.SrvRecv? && h.slot == 0 && Receivable(Pkgs(h.queue), SEND_TO_SERVER)
    then [First(h.queue, SEND_TO_SERVER).tag] else []
  }

  /** The numbers of the requests the server takes over a run, in order. */
  function Took(h: History, es: seq<Event>): seq<nat>
    decreases |es|
  {
    if es == [] then [] else TookOne(h, es[0]) + Took(Record(h, es[0]), es[1..])
  }

  /** The numbers `a .. b`. */
  function Numbers(a: nat, b: nat): (s: seq<nat>)
    ensures |s| == (if a <= b then b - a else 0) && forall i | 0 <= i < |s| :: s[i] == a + i
    decreases b - a
  {
    if a < b then [a] + Numbers(a + 1, b) else []
  }

  lemma NumbersConcat(a: nat, b: nat, c: nat)
    requires a <= b <= c
    ensures Numbers(a, b) + Numbers(b, c) == Numbers(a, c)
  {
    hide Numbers;
    var s, t := Numbers(a, b) + Numbers(b, c), Numbers(a, c);
    forall i | 0 <= i < |t|
      ensures s[i] == t[i]
    {
    }
  }

  lemma QueueOfAppend(h: History, m: Tagged)
    ensures Select(h.queue + [m], AnyAsk)
         == Select(h.queue, AnyAsk) + if m.pkg.msgid == SEND_TO_SERVER then [m.tag] else []
  {
    hide Select;
    SelectAppend(h.queue, m, AnyAsk);
  }

  lemma QueueOfTake(h: History, t: int)
    requires Receivable(Pkgs(h.queue), t)
    ensures Select(h.queue, AnyAsk)
         == (if t == SEND_TO_SERVER then [First(h.queue, t).tag] else []) + Select(TakeFirst(h.queue, t), AnyAsk)
  {
    hide Select, Pkgs, TakeFirst, Receivable, First;
    FirstType(h.queue, t);
    SelectTaken(h.queue, t, AnyAsk);
  }

  lemma NothingToTake(h: History, t: int)
    requires !Receivable(Pkgs(h.queue), t)
    ensures TakeFirst(h.queue, t) == h.queue
  {
  }

  /** Whatever one call does, the request it takes and those queued after it are those queued before it and the new
      one, in this order. */
  lemma StepServes(h: History, e: Event)
    requires PidsOk(e) && (h.slot == 0 || h.slot > REG_TO_SERVER)
    ensures |h.owner| <= |Record(h, e).owner|
    ensures TookOne(h, e) + Select(Record(h, e).queue, AnyAsk)
         == Select(h.queue, AnyAsk) + Numbers(|h.owner|, |Record(h, e).owner|)
  {
    hide Select, TakeFirst, Receivable, First, Pkgs, Sendable;
    match e {
      case CltSend(pid, data, accepted) =>
        QueueOfAppend(h, Tagged(Pkg(SEND_TO_SERVER, pid, data), |h.owner|));
      case SrvSend(data, accepted) =>
        QueueOfAppend(h, Tagged(Pkg(h.slot, 0, data), h.held));
      case CltRegister(eid, accepted) =>
        QueueOfAppend(h, Tagged(Pkg(REG_TO_SERVER, eid, []), 0));
      case SrvRecv =>
        if Receivable(Pkgs(h.queue), SEND_TO_SERVER) {
          QueueOfTake(h, SEND_TO_SERVER);
        }
      case CltRecv(pid) =>
        if Receivable(Pkgs(h.queue), pid) {
          QueueOfTake(h, pid);
        }
      case SrvMonitor =>
        if Receivable(Pkgs(h.queue), REG_TO_SERVER) {
          QueueOfTake(h, REG_TO_SERVER);
        } else {
          NothingToTake(h, REG_TO_SERVER);
        }
    }
  }

  lemma SlotOk(h: History)
    requires Safe(h)
    ensures h.slot == 0 || h.slot > REG_TO_SERVER
  {
  }

  lemma {:induction false} RunServes(h: History, es: seq<Event>)
    requires Safe(h) && forall e | e in es :: PidsOk(e)
    ensures |h.owner| <= |RecordAll(h, es).owner|
    ensures Took(h, es) + Select(RecordAll(h, es).queue, AnyAsk)
         == Select(h.queue, AnyAsk) + Numbers(|h.owner|, |RecordAll(h, es).owner|)
    decreases |es|
  {
    hide Record, Select, Safe, TookOne;
    if es == [] {
      assert Numbers(|h.owner|, |h.owner|) == [];
    } else {
      SlotOk(h);
      var g, k := Record(h, es[0]), RecordAll(h, es);
      StepServes(h, es[0]);
      StepSafe(h, es[0]);
      RunServes(g, es[1..]);
      NumbersConcat(|h.owner|, |g.owner|, |k.owner|);
      assert Took(h, es) + Select(k.queue, AnyAsk)
          == TookOne(h, es[0]) + (Took(g, es[1..]) + Select(k.queue, AnyAsk));
      assert Took(h, es) + Select(k.queue, AnyAsk)
          == (TookOne(h, es[0]) + Select(g.queue, AnyAsk)) + Numbers(|g.owner|, |k.owner|);
      assert Took(h, es) + Select(k.queue, AnyAsk)
          == Select(h.queue, AnyAsk) + (Numbers(|h.owner|, |g.owner|) + Numbers(|g.owner|, |k.owner|));
    }
  }

  lemma StartServes()
    ensures Safe(START) && Select(START.queue, AnyAsk) == [] && |START.owner| == 0
  {
  }

  lemma FrontIncreases(s: seq<nat>, t: seq<nat>, n: nat)
    requires s + t == Numbers(0, n)
    ensures Increasing(s)
  {
    hide Numbers;
    assert forall i | 0 <= i < |s| :: s[i] == (s + t)[i];
  }

  /** Over every interleaving the server takes the requests of all clients in the order they were made: those taken
      and those still queued are all requests there have been, from the first to the last. */
  lemma FirstComeFirstServed(es: seq<Event>)
    requires forall e | e in es :: PidsOk(e)
    ensures var h := RecordAll(START, es);
      && Took(START, es) + Select(h.queue, AnyAsk) == Numbers(0, |h.owner|)
      && Increasing(Took(START, es))
  {
    hide Select, Took, Record, RecordAll, Safe, Increasing, Numbers;
    StartServes();
    RunServes(START, es);
    var h := RecordAll(START, es);
    assert [] + Numbers(0, |h.owner|) == Numbers(0, |h.owner|);
    FrontIncreases(Took(START, es), Select(h.queue, AnyAsk), |h.owner|);
  }
}
