/** What is received is what was sent: the payloads of requests and answers over whole runs. */
module Delivery {
  import opened AskAck
  import opened MessageQueue

  // ---- what is sent, as the calls alone tell it ----

  /** The request a call makes: who makes it, and its payload. */
  function AskOf(e: Event): seq<(int, seq<bv8>)> {
    if e.CltSend? && e.accepted && 1 <= |e.data| <= 2040 then [(e.pid, e.data)] else []
  }

  /** The requests of a run; request number `t` is the one at index `t`. */
  function Asked(es: seq<Event>): seq<(int, seq<bv8>)> {
    if es == [] then [] else AskOf(es[0]) + Asked(es[1..])
  }

  /** The answer a call gives: the number of the request it answers, and the payload passed to the call. */
  function ReplyOf(h: History, e: Event): seq<(nat, seq<bv8>)> {
    if e.SrvSend? && e.accepted && 1 <= |e.data| <= 2040 && h.slot != 0 then [(h.held, e.data)] else []
  }

  function Replied(h: History, es: seq<Event>): seq<(nat, seq<bv8>)>
    decreases |es|
  {
    if es == [] then [] else ReplyOf(h, es[0]) + Replied(Record(h, es[0]), es[1..])
  }

  // ---- what is received, as the queue holds it ----

  /** The request the server takes: its number, the client it names, and its payload. */
  function TakenOf(h: History, e: Event): seq<(nat, int, seq<bv8>)> {
    if e.SrvRecv? && h.slot == 0 && Receivable(Pkgs(h.queue), SEND_TO_SERVER) then
      var m := First(h.queue, SEND_TO_SERVER);
      [(m.tag, m.pkg.xid, m.pkg.data)]
    else
      []
  }

  function Taken(h: History, es: seq<Event>): seq<(nat, int, seq<bv8>)>
    decreases |es|
  {
    if es == [] then [] else TakenOf(h, es[0]) + Taken(Record(h, es[0]), es[1..])
  }

  /** The answer a client receives: who receives it, the number of the request it answers, and its payload. */
  function GotOf(h: History, e: Event): seq<(int, nat, seq<bv8>)> {
    if e.CltRecv? && Receivable(Pkgs(h.queue), e.pid) then
      var m := First(h.queue, e.pid);
      [(e.pid, m.tag, m.pkg.data)]
    else
      []
  }

  function Got(h: History, es: seq<Event>): seq<(int, nat, seq<bv8>)>
    decreases |es|
  {
    if es == [] then [] else GotOf(h, es[0]) + Got(Record(h, es[0]), es[1..])
  }

  // ---- what every run keeps ----

  /** A queued package carries what was sent under its number. */
  ghost predicate Carries(m: Tagged, asks: seq<(int, seq<bv8>)>, replies: seq<(nat, seq<bv8>)>) {
    if m.pkg.msgid == SEND_TO_SERVER then m.tag < |asks| && asks[m.tag] == (m.pkg.xid, m.pkg.data)
    else m.pkg.msgid > REG_TO_SERVER ==>
      m.tag < |asks| && asks[m.tag].0 == m.pkg.msgid && (m.tag, m.pkg.data) in replies
  }

  ghost predicate Carried(h: History, asks: seq<(int, seq<bv8>)>, replies: seq<(nat, seq<bv8>)>) {
    && |asks| == |h.owner| && (forall t | 0 <= t < |asks| :: asks[t].0 == h.owner[t] > REG_TO_SERVER)
    && (forall m | m in h.queue :: Carries(m, asks, replies))
    && (h.slot != 0 ==> h.slot > REG_TO_SERVER && h.held < |asks| && asks[h.held].0 == h.slot)
  }

  /** What is carried stays so when more is sent. */
  lemma CarriesMore(m: Tagged, asks: seq<(int, seq<bv8>)>, replies: seq<(nat, seq<bv8>)>,
                    a: seq<(int, seq<bv8>)>, r: seq<(nat, seq<bv8>)>)
    requires Carries(m, asks, replies)
    ensures Carries(m, asks + a, replies + r)
  {
  }

  /** No step puts a package in the queue but the one it sends. */
  lemma Arrivals(h: History, e: Event)
    ensures forall m | m in Record(h, e).queue && m !in h.queue ::
      || (e.CltSend? && e.accepted && Sendable(e.data)
          && m == Tagged(Pkg(SEND_TO_SERVER, e.pid, e.data), |h.owner|))
      || (e.SrvSend? && e.accepted && Sendable(e.data) && h.slot != 0 && m == Tagged(Pkg(h.slot, 0, e.data), h.held))
      || (e.CltRegister? && m.pkg.msgid == REG_TO_SERVER)
  {
    hide Sendable, Pkgs, Find;
  }

  lemma LengthsOk(data: seq<bv8>)
    ensures Sendable(data) <==> 1 <= |data| <= 2040
  {
  }

  lemma StepOwners(h: History, e: Event)
    ensures |AskOf(e)| <= 1 && Record(h, e).owner == h.owner + if AskOf(e) == [] then [] else [AskOf(e)[0].0]
  {
    if e.CltSend? {
      LengthsOk(e.data);
    }
    OwnersGrow(h, e);
  }

  lemma StepSlot(h: History, e: Event)
    ensures var g := Record(h, e); g.slot != 0 ==>
      || (g.slot == h.slot && g.held == h.held)
      || (e.SrvRecv? && h.slot == 0 && Receivable(Pkgs(h.queue), SEND_TO_SERVER)
          && First(h.queue, SEND_TO_SERVER) in h.queue && First(h.queue, SEND_TO_SERVER).pkg.msgid == SEND_TO_SERVER
          && g.slot == First(h.queue, SEND_TO_SERVER).pkg.xid && g.held == First(h.queue, SEND_TO_SERVER).tag)
  {
    hide Sendable, Pkgs, Find, TakeFirst, First;
    if Receivable(Pkgs(h.queue), SEND_TO_SERVER) {
      FirstType(h.queue, SEND_TO_SERVER);
    }
  }

  lemma OwnersKnown(h: History, asks: seq<(int, seq<bv8>)>, replies: seq<(nat, seq<bv8>)>, t: nat)
    requires Carried(h, asks, replies) && t < |asks|
    ensures asks[t].0 > REG_TO_SERVER
  {
  }

  lemma HeldCarries(m: Tagged, asks: seq<(int, seq<bv8>)>, replies: seq<(nat, seq<bv8>)>)
    requires Carries(m, asks, replies) && m.pkg.msgid == SEND_TO_SERVER
    ensures m.tag < |asks| && asks[m.tag] == (m.pkg.xid, m.pkg.data)
  {
  }

  lemma NewCarries(h: History, e: Event, m: Tagged, asks: seq<(int, seq<bv8>)>, replies: seq<(nat, seq<bv8>)>)
    requires Carried(h, asks, replies) && m in Record(h, e).queue && m !in h.queue
    ensures Carries(m, asks + AskOf(e), replies + ReplyOf(h, e))
  {
    hide Record, Sendable;
    Arrivals(h, e);
    if e.CltSend? || e.SrvSend? {
      LengthsOk(e.data);
    }
  }

  lemma StepCarried(h: History, e: Event, asks: seq<(int, seq<bv8>)>, replies: seq<(nat, seq<bv8>)>)
    requires Carried(h, asks, replies) && PidsOk(e)
    ensures Carried(Record(h, e), asks + AskOf(e), replies + ReplyOf(h, e))
  {
    hide Record, Sendable, Pkgs, Find, First, Receivable, Carries;
    var g, asks', replies' := Record(h, e), asks + AskOf(e), replies + ReplyOf(h, e);
    StepOwners(h, e);
    StepSlot(h, e);
    Arrivals(h, e);
    forall m | m in g.queue
      ensures Carries(m, asks', replies')
    {
      if m in h.queue {
        CarriesMore(m, asks, replies, AskOf(e), ReplyOf(h, e));
      } else {
        NewCarries(h, e, m, asks, replies);
      }
    }
    if e.SrvRecv? && h.slot == 0 && g.slot != 0 {
      HeldCarries(First(h.queue, SEND_TO_SERVER), asks, replies);
      OwnersKnown(h, asks, replies, First(h.queue, SEND_TO_SERVER).tag);
    }
  }

  lemma TakenCarried(h: History, e: Event, asks: seq<(int, seq<bv8>)>, replies: seq<(nat, seq<bv8>)>)
    requires Carried(h, asks, replies)
    ensures forall x | x in TakenOf(h, e) :: x.0 < |asks| && asks[x.0] == (x.1, x.2)
  {
    hide Pkgs, First, Receivable;
    if TakenOf(h, e) != [] {
      FirstType(h.queue, SEND_TO_SERVER);
    }
  }

  lemma GotCarried(h: History, e: Event, asks: seq<(int, seq<bv8>)>, replies: seq<(nat, seq<bv8>)>)
    requires Carried(h, asks, replies) && PidsOk(e)
    ensures forall y | y in GotOf(h, e) :: y.1 < |asks| && asks[y.1].0 == y.0 && (y.1, y.2) in replies
  {
    hide Pkgs, First, Receivable;
    if GotOf(h, e) != [] {
      FirstType(h.queue, e.pid);
    }
  }

  lemma CarriedOwners(h: History, asks: seq<(int, seq<bv8>)>, replies: seq<(nat, seq<bv8>)>)
    requires Carried(h, asks, replies)
    ensures |asks| == |h.owner|
  {
  }

  lemma {:induction false} RunCarried(h: History, es: seq<Event>, asks: seq<(int, seq<bv8>)>,
                                      replies: seq<(nat, seq<bv8>)>)
    requires Carried(h, asks, replies) && forall e | e in es :: PidsOk(e)
    ensures var a, r := asks + Asked(es), replies + Replied(h, es);
      && |a| == |RecordAll(h, es).owner|
      && (forall x | x in Taken(h, es) :: x.0 < |a| && a[x.0] == (x.1, x.2))
      && (forall y | y in Got(h, es) :: y.1 < |a| && a[y.1].0 == y.0 && (y.1, y.2) in r)
    decreases |es|
  {
    hide Record, AskOf, ReplyOf, TakenOf, GotOf;
    if es == [] {
      assert asks + [] == asks && replies + [] == replies;
      CarriedOwners(h, asks, replies);
    } else {
      assert es[0] in es;
      StepCarried(h, es[0], asks, replies);
      TakenCarried(h, es[0], asks, replies);
      GotCarried(h, es[0], asks, replies);
      hide Carried;
      RunCarried(Record(h, es[0]), es[1..], asks + AskOf(es[0]), replies + ReplyOf(h, es[0]));
      assert asks + Asked(es) == asks + AskOf(es[0]) + Asked(es[1..]);
      assert replies + Replied(h, es) == replies + ReplyOf(h, es[0]) + Replied(Record(h, es[0]), es[1..]);
    }
  }

  // ---- the numbers are those of the history ----

  lemma {:induction false} TakenNumbers(h: History, es: seq<Event>)
    ensures |Taken(h, es)| == |Took(h, es)| && forall i | 0 <= i < |Took(h, es)| :: Taken(h, es)[i].0 == Took(h, es)[i]
    decreases |es|
  {
    hide Record;
    if es != [] {
      TakenNumbers(Record(h, es[0]), es[1..]);
    }
  }

  lemma StepAcked(h: History, e: Event)
    ensures |GotOf(h, e)| <= 1
    ensures Record(h, e).acked == h.acked + if GotOf(h, e) == [] then [] else [(GotOf(h, e)[0].0, GotOf(h, e)[0].1)]
  {
    hide Pkgs, Find, First, TakeFirst, Receivable, Sendable;
  }

  lemma {:induction false} GotNumbers(h: History, es: seq<Event>)
    ensures var acked, n := RecordAll(h, es).acked, |h.acked|;
      && |acked| == n + |Got(h, es)|
      && acked[..n] == h.acked
      && forall i | 0 <= i < |Got(h, es)| :: acked[n + i] == (Got(h, es)[i].0, Got(h, es)[i].1)
    decreases |es|
  {
    hide Record, GotOf;
    if es != [] {
      StepAcked(h, es[0]);
      GotNumbers(Record(h, es[0]), es[1..]);
      assert h.acked == Record(h, es[0]).acked[..|h.acked|];
    }
  }

  // ---- one answer to a request ----

  function Keys(replies: seq<(nat, seq<bv8>)>): (ks: seq<nat>)
    ensures |ks| == |replies| && forall i | 0 <= i < |ks| :: ks[i] == replies[i].0
  {
    seq(|replies|, i requires 0 <= i < |replies| => replies[i].0)
  }

  /** The numbers of the requests answered so far, held, and queued. */
  ghost function Line(h: History, replies: seq<(nat, seq<bv8>)>): seq<nat> {
    Keys(replies) + (if h.slot != 0 then [h.held] else []) + Select(h.queue, AnyAsk)
  }

  ghost predicate InLine(h: History, replies: seq<(nat, seq<bv8>)>) {
    Increasing(Line(h, replies)) && forall t | t in Line(h, replies) :: t < |h.owner|
  }

  lemma LineParts(a: seq<nat>, b: seq<nat>, c: seq<nat>, n: nat)
    requires Increasing(a + b + c) && forall t | t in a + b + c :: t < n
    ensures Increasing(a + c) && forall t | t in a + c :: t < n
  {
    var s, u := a + b + c, a + c;
    assert forall i | 0 <= i < |u| :: u[i] == s[if i < |a| then i else i + |b|] && u[i] in s;
  }

  lemma LineGrows(s: seq<nat>, n: nat)
    requires Increasing(s) && forall t | t in s :: t < n
    ensures Increasing(s + [n]) && forall t | t in s + [n] :: t < n + 1
  {
    forall i | 0 <= i < |s|
      ensures s[i] < n
    {
      assert s[i] in s;
    }
  }

  lemma NumbersOne(n: nat)
    ensures Numbers(n, n) == [] && Numbers(n, n + 1) == [n]
  {
  }

  /** What one call does to the requests queued. */
  lemma StepQueued(h: History, e: Event)
    requires PidsOk(e) && (h.slot == 0 || h.slot > REG_TO_SERVER)
    ensures TookOne(h, e) + Select(Record(h, e).queue, AnyAsk)
         == Select(h.queue, AnyAsk) + if AskOf(e) == [] then [] else [|h.owner|]
  {
    hide Record, Select, TookOne, AskOf;
    StepServes(h, e);
    StepOwners(h, e);
    NumbersOne(|h.owner|);
  }

  /** What it does to the slot, and to the answers given. */
  lemma StepHeld(h: History, e: Event)
    requires forall m | m in h.queue && m.pkg.msgid == SEND_TO_SERVER :: m.pkg.xid > REG_TO_SERVER
    ensures |ReplyOf(h, e)| <= 1
    ensures var g, replied := Record(h, e), ReplyOf(h, e);
      if TookOne(h, e) != [] then h.slot == 0 && g.slot != 0 && TookOne(h, e) == [g.held] && replied == []
      else if replied != [] then h.slot != 0 && replied[0].0 == h.held && g.slot == 0
      else if g.slot == h.slot then g.held == h.held
      else e.SrvSend? && 1 <= |e.data| <= 2040 && h.slot != 0 && !e.accepted && g.slot == 0
  {
    hide Pkgs, Find, First, TakeFirst, Receivable, Sendable;
    if e.SrvSend? {
      LengthsOk(e.data);
    }
    if e.SrvRecv? && Receivable(Pkgs(h.queue), SEND_TO_SERVER) {
      FirstType(h.queue, SEND_TO_SERVER);
    }
  }

  /** A call that sends an answer makes no request. */
  lemma SendOrAsk(h: History, e: Event)
    ensures e.SrvSend? || ReplyOf(h, e) != [] ==> AskOf(e) == []
  {
  }

  lemma KeysSnoc(a: seq<(nat, seq<bv8>)>, b: seq<(nat, seq<bv8>)>)
    requires |b| <= 1
    ensures Keys(a + b) == Keys(a) + if b == [] then [] else [b[0].0]
  {
  }

  /** One call either moves the line along, adds the newest request, or drops the one held. */
  lemma StepLine(h: History, e: Event, replies: seq<(nat, seq<bv8>)>)
    requires PidsOk(e) && (h.slot == 0 || h.slot > REG_TO_SERVER)
    requires forall m | m in h.queue && m.pkg.msgid == SEND_TO_SERVER :: m.pkg.xid > REG_TO_SERVER
    ensures var line := Line(Record(h, e), replies + ReplyOf(h, e));
      || line == Line(h, replies) + (if AskOf(e) == [] then [] else [|h.owner|])
      || (AskOf(e) == [] && line == Keys(replies) + Select(h.queue, AnyAsk))
  {
    hide Record, Select, TookOne, AskOf, ReplyOf, Keys;
    StepQueued(h, e);
    StepHeld(h, e);
    SendOrAsk(h, e);
    KeysSnoc(replies, ReplyOf(h, e));
    var g, ks, asked := Record(h, e), Keys(replies), if AskOf(e) == [] then [] else [|h.owner|];
    var was, now := Select(h.queue, AnyAsk), Select(g.queue, AnyAsk);
    if TookOne(h, e) != [] {
      assert Line(g, replies + ReplyOf(h, e)) == ks + ([g.held] + now);
      assert ks + [] + was + asked == ks + (was + asked);
    } else {
      assert now == was + asked;
      assert ks + [h.held] + was + asked == ks + [h.held] + (was + asked);
      assert ks + [] + was + asked == ks + [] + (was + asked);
    }
  }

  lemma SafeTypes(h: History)
    requires Safe(h)
    ensures h.slot == 0 || h.slot > REG_TO_SERVER
    ensures forall m | m in h.queue && m.pkg.msgid == SEND_TO_SERVER :: m.pkg.xid > REG_TO_SERVER
  {
  }

  lemma StepInLine(h: History, e: Event, replies: seq<(nat, seq<bv8>)>)
    requires InLine(h, replies) && Safe(h) && PidsOk(e)
    ensures InLine(Record(h, e), replies + ReplyOf(h, e))
  {
    SafeTypes(h);
    hide Record, Safe, Select, Keys, Increasing, AskOf, ReplyOf;
    StepLine(h, e, replies);
    StepOwners(h, e);
    if AskOf(e) != [] {
      LineGrows(Line(h, replies), |h.owner|);
    } else {
      assert Line(h, replies) + [] == Line(h, replies);
      LineParts(Keys(replies), if h.slot != 0 then [h.held] else [], Select(h.queue, AnyAsk), |h.owner|);
    }
  }

  lemma {:induction false} RunInLine(h: History, es: seq<Event>, replies: seq<(nat, seq<bv8>)>)
    requires InLine(h, replies) && Safe(h) && forall e | e in es :: PidsOk(e)
    ensures InLine(RecordAll(h, es), replies + Replied(h, es))
    decreases |es|
  {
    hide Record, Safe, InLine, ReplyOf;
    if es == [] {
      assert replies + [] == replies;
    } else {
      assert es[0] in es;
      StepInLine(h, es[0], replies);
      StepSafe(h, es[0]);
      RunInLine(Record(h, es[0]), es[1..], replies + ReplyOf(h, es[0]));
      assert replies + Replied(h, es) == replies + ReplyOf(h, es[0]) + Replied(Record(h, es[0]), es[1..]);
    }
  }

  lemma StartCarried()
    ensures Carried(START, [], []) && InLine(START, []) && Safe(START)
  {
  }

  lemma LineHead(h: History, replies: seq<(nat, seq<bv8>)>)
    requires InLine(h, replies)
    ensures forall i, j | 0 <= i < j < |replies| :: replies[i].0 < replies[j].0
  {
    forall i, j | 0 <= i < j < |replies|
      ensures replies[i].0 < replies[j].0
    {
      assert Line(h, replies)[i] == replies[i].0 && Line(h, replies)[j] == replies[j].0;
    }
  }

  /** Over every interleaving. The payload the server takes for request `t`, and the client it takes it for, are those
      of the send that made request `t`. The payload a client receives as the answer to request `t` is the one
      passed to the answer given to `t`, of which there is one, and request `t` is the client's own. */
  lemma PayloadsArrive(es: seq<Event>)
    requires forall e | e in es :: PidsOk(e)
    ensures forall x | x in Taken(START, es) :: x.0 < |Asked(es)| && Asked(es)[x.0] == (x.1, x.2)
    ensures forall y | y in Got(START, es) ::
      y.1 < |Asked(es)| && Asked(es)[y.1].0 == y.0 && (y.1, y.2) in Replied(START, es)
    ensures forall i, j | 0 <= i < j < |Replied(START, es)| :: Replied(START, es)[i].0 < Replied(START, es)[j].0
    ensures |Taken(START, es)| == |Took(START, es)|
    ensures forall i | 0 <= i < |Took(START, es)| :: Taken(START, es)[i].0 == Took(START, es)[i]
    ensures |Got(START, es)| == |RecordAll(START, es).acked|
    ensures forall i | 0 <= i < |Got(START, es)| ::
      RecordAll(START, es).acked[i] == (Got(START, es)[i].0, Got(START, es)[i].1)
  {
    hide Record, Carried, InLine, Safe, Taken, Got, Took, Replied, Asked;
    StartCarried();
    RunCarried(START, es, [], []);
    RunInLine(START, es, []);
    assert [] + Asked(es) == Asked(es) && [] + Replied(START, es) == Replied(START, es);
    LineHead(RecordAll(START, es), Replied(START, es));
    TakenNumbers(START, es);
    GotNumbers(START, es);
  }
}
