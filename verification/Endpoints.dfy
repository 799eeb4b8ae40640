/**
 The reliable endpoints of the participant runtime as the code keeps them, each handler proved to
 do what the protocol's steps say.
 */
module Endpoints {
  import opened Wrappers
  import opened RecvTrackers
  import opened SendHistories
  import P = Protocol
  import Recovery

  // ---------------------------------------------------------------------------
  // What answering an ACKNACK sends
  // ---------------------------------------------------------------------------

  /** The retransmissions for the first `n` bits of a request. */
  function Resends(log: seq<Entry<P.Payload>>, base: nat, bits: Bitmap, n: nat): seq<P.Packet>
    requires n <= WINDOW
  {
    if n == 0 then []
    else
      Resends(log, base, bits, n - 1)
      + if bits[n - 1] && Lookup(log, base + n - 1).Some?
        then [P.Data(base + n - 1, Lookup(log, base + n - 1).value)]
        else []
  }

  function GapFor(log: seq<Entry<P.Payload>>, base: nat): seq<P.Packet> {
    if log != [] && base < Lowest(log) then [P.Gap(base, P.GapEnd(base, Lowest(log)))] else []
  }

  function Answers(log: seq<Entry<P.Payload>>, base: nat, bits: Bitmap): seq<P.Packet> {
    Resends(log, base, bits, WINDOW) + GapFor(log, base)
  }

  /** Exactly the retained samples asked for by the first `n` bits, each once and in rising order. */
  ghost predicate ResendsWhat(sent: seq<P.Packet>, log: seq<Entry<P.Payload>>, base: nat, bits: Bitmap, n: nat) {
    && n <= WINDOW
    && (forall i | 0 <= i < |sent| :: sent[i].Data? && base <= sent[i].sn < base + n)
    && (forall i | 0 <= i < |sent| :: bits[sent[i].sn - base] && Lookup(log, sent[i].sn) == Some(sent[i].bytes))
    && (forall i, j | 0 <= i < j < |sent| :: sent[i].sn < sent[j].sn)
    && forall k | 0 <= k < n && bits[k] && Lookup(log, base + k).Some? ::
      P.Data(base + k, Lookup(log, base + k).value) in sent
  }

  lemma {:induction false} ResendsMeaning(log: seq<Entry<P.Payload>>, base: nat, bits: Bitmap, n: nat)
    requires n <= WINDOW
    ensures ResendsWhat(Resends(log, base, bits, n), log, base, bits, n)
  {
    if n > 0 {
      ResendsMeaning(log, base, bits, n - 1);
      ResendsNext(log, base, bits, n);
      ResendsGrow(Resends(log, base, bits, n - 1), log, base, bits, n);
    }
  }

  lemma ResendsGrow(before: seq<P.Packet>, log: seq<Entry<P.Payload>>, base: nat, bits: Bitmap, n: nat)
    requires 0 < n <= WINDOW && ResendsWhat(before, log, base, bits, n - 1)
    ensures ResendsWhat(if bits[n - 1] && Lookup(log, base + n - 1).Some?
                        then before + [P.Data(base + n - 1, Lookup(log, base + n - 1).value)] else before,
                        log, base, bits, n)
  {
    if bits[n - 1] && Lookup(log, base + n - 1).Some? {
      ResendsOneMore(before, log, base, bits, n, P.Data(base + n - 1, Lookup(log, base + n - 1).value));
    } else {
      ResendsNoMore(before, log, base, bits, n);
    }
  }

  lemma ResendsOneMore(before: seq<P.Packet>, log: seq<Entry<P.Payload>>, base: nat, bits: Bitmap, n: nat, data: P.Packet)
    requires 0 < n <= WINDOW && ResendsWhat(before, log, base, bits, n - 1) && bits[n - 1]
    requires data.Data? && data.sn == base + n - 1 && Lookup(log, data.sn) == Some(data.bytes)
    ensures ResendsWhat(before + [data], log, base, bits, n)
  {
    var sent := before + [data];
    forall k | 0 <= k < n && bits[k] && Lookup(log, base + k).Some?
      ensures P.Data(base + k, Lookup(log, base + k).value) in sent
    {
      if k == n - 1 {
        assert sent[|before|] == data;
      } else {
        assert P.Data(base + k, Lookup(log, base + k).value) in before;
      }
    }
  }

  lemma ResendsNoMore(before: seq<P.Packet>, log: seq<Entry<P.Payload>>, base: nat, bits: Bitmap, n: nat)
    requires 0 < n <= WINDOW && ResendsWhat(before, log, base, bits, n - 1)
    requires !bits[n - 1] || Lookup(log, base + n - 1).None?
    ensures ResendsWhat(before, log, base, bits, n)
  {
    assert base + (n - 1) == base + n - 1;
  }

  /** Every request is answered: the retained samples asked for, once each and in rising order, then a GAP
      exactly when the request starts below the window. */
  lemma AnswersMeaning(log: seq<Entry<P.Payload>>, base: nat, bits: Bitmap)
    ensures var sent := Answers(log, base, bits);
            && (forall n: nat, m :: P.Data(n, m) in sent <==>
                  base <= n < base + WINDOW && bits[n - base] && Lookup(log, n) == Some(m))
            && (forall i, j | 0 <= i < j < |sent| && sent[i].Data? && sent[j].Data? :: sent[i].sn < sent[j].sn)
            && (forall a: nat, b: nat :: P.Gap(a, b) in sent <==>
                  log != [] && base < Lowest(log) && a == base && b == Min(Lowest(log) - 1, base + 31))
            && forall i | 0 <= i < |sent| :: sent[i].Data? || (sent[i].Gap? && i == |sent| - 1)
  {
    var resends, gap := Resends(log, base, bits, WINDOW), GapFor(log, base);
    ResendsMeaning(log, base, bits, WINDOW);
    forall n: nat, m
      ensures P.Data(n, m) in resends <==> base <= n < base + WINDOW && bits[n - base] && Lookup(log, n) == Some(m)
    {
      ResendsHas(resends, log, base, bits, n, m);
    }
  }

  lemma ResendsHas(sent: seq<P.Packet>, log: seq<Entry<P.Payload>>, base: nat, bits: Bitmap, n: nat, m: P.Payload)
    requires ResendsWhat(sent, log, base, bits, WINDOW)
    ensures P.Data(n, m) in sent <==> base <= n < base + WINDOW && bits[n - base] && Lookup(log, n) == Some(m)
  {
    if base <= n < base + WINDOW && bits[n - base] && Lookup(log, n) == Some(m) {
      assert P.Data(base + (n - base), Lookup(log, base + (n - base)).value) in sent;
    }
  }

  // ---------------------------------------------------------------------------
  // Writer and reader
  // ---------------------------------------------------------------------------

  class WriterState {
    var lastSn: nat
    const history: SendHistory<P.Payload>
    var acked: nat

    ghost predicate Valid()
      reads this, history, history.msg, history.sn
    {
      && history.Valid()
      && lastSn == |history.Log| && P.LogInv(history.Log)
    }

    constructor ()
      ensures Valid() && history.Log == [] && acked == 0
      ensures fresh(history) && fresh(history.msg) && fresh(history.sn)
    {
      lastSn, acked := 0, 0;
      history := new SendHistory();
    }

    /** Numbers and stores one wire message; the caller sends it afterwards. */
    method Write(bytes: P.Payload) returns (sn: nat)
      requires Valid() && lastSn + 1 < SN_LIMIT
      modifies this`lastSn, history, history.msg, history.sn
      ensures Valid() && sn == lastSn == old(lastSn) + 1
      ensures history.Log == old(history.Log) + [Entry(sn, bytes)]
      ensures history.msg == old(history.msg) && history.sn == old(history.sn)
    {
      lastSn := lastSn + 1;
      sn := lastSn;
      history.Store(sn, bytes);
    }

    method Heartbeat() returns (hb: Option<P.Packet>)
      requires Valid()
      ensures hb == if history.Log == [] then None else Some(P.Heartbeat(Lowest(history.Log), Highest(history.Log)))
    {
      var window := history.FirstLast();
      match window {
        case None => hb := None;
        case Some((first, last)) => hb := Some(P.Heartbeat(first, last));
      }
    }

    /** With one handler running the first exchange succeeds; module AckWatermark has the retries. */
    method AdvanceAcked(base: nat)
      modifies this`acked
      ensures acked == P.AdvanceAcked(old(acked), base)
      ensures old(acked) <= acked && (base > 0 ==> base - 1 <= acked)
      ensures acked == old(acked) || (base > 0 && acked == base - 1)
    {
      if base == 0 {
        return;
      }
      var confirmed := base - 1;
      if confirmed > acked {
        acked := confirmed;
      }
    }

    method HandleAckNack(base: nat, bits: Bitmap) returns (sent: seq<P.Packet>)
      requires Valid()
      modifies this`acked
      ensures Valid()
      ensures acked == P.AdvanceAcked(old(acked), base)
      ensures sent == Answers(history.Log, base, bits)
      ensures forall n: nat, m :: P.Data(n, m) in sent <==>
                base <= n < base + WINDOW && bits[n - base] && Lookup(history.Log, n) == Some(m)
      ensures forall i, j | 0 <= i < j < |sent| && sent[i].Data? && sent[j].Data? :: sent[i].sn < sent[j].sn
      ensures forall a: nat, b: nat :: P.Gap(a, b) in sent <==>
                history.Log != [] && base < Lowest(history.Log) && a == base && b == Min(Lowest(history.Log) - 1, base + 31)
      ensures forall i | 0 <= i < |sent| :: sent[i].Data? || (sent[i].Gap? && i == |sent| - 1)
    {
      AdvanceAcked(base);
      var window := history.FirstLast();
      sent := [];
      for bit := 0 to WINDOW
        invariant Valid() && acked == P.AdvanceAcked(old(acked), base)
        invariant sent == Resends(history.Log, base, bits, bit)
      {
        if bits[bit] {
          var m := history.Get(base + bit);
          match m {
            case None =>
            case Some(bytes) => sent := sent + [P.Data(base + bit, bytes)];
          }
        }
      }
      AnswersMeaning(history.Log, base, bits);
      match window {
        case None =>
        case Some((first, _)) =>
          if base < first {
            var gapEnd := first - 1;
            if gapEnd > base + WINDOW - 1 {
              gapEnd := base + WINDOW - 1;
            }
            sent := sent + [P.Gap(base, gapEnd)];
          }
      }
    }
  }

  class ReaderState {
    const id: P.ReaderId
    const tracker: RecvTracker

    constructor (id: P.ReaderId)
      ensures this.id == id && tracker.View() == FRESH && tracker.View().Valid() && fresh(tracker)
    {
      this.id := id;
      tracker := new RecvTracker();
    }

    method NotifyData(sn: nat) returns (reply: Option<P.Packet>)
      requires tracker.View().Valid() && sn < SN_LIMIT
      modifies tracker
      ensures tracker.View() == old(tracker.View()).Record(sn).0 && tracker.View().Valid()
      ensures P.Reply(id, tracker.View().Missing(sn)) == if reply.Some? then {reply.value} else {}
    {
      var _ := tracker.Record(sn);
      var q := tracker.Missing(sn);
      reply := if q.needAck then Some(P.AckNack(id, q.base, q.bits)) else None;
    }

    method HandleHeartbeat(first: nat, last: nat) returns (reply: Option<P.Packet>)
      requires tracker.View().Valid() && first < SN_LIMIT && last < U64_LIMIT
      modifies tracker
      ensures tracker.View() == old(tracker.View()).Init(first) && tracker.View().Valid()
      ensures P.Reply(id, tracker.View().Missing(last)) == if reply.Some? then {reply.value} else {}
    {
      tracker.Init(first);
      var q := tracker.Missing(last);
      reply := if q.needAck then Some(P.AckNack(id, q.base, q.bits)) else None;
    }
  }

  // ---------------------------------------------------------------------------
  // The ACKNACK handler is a run of protocol steps
  // ---------------------------------------------------------------------------

  ghost function Sent(s: P.State, packets: seq<P.Packet>): P.State {
    s.(net := s.net + set p <- packets)
  }

  lemma SentMore(s: P.State, packets: seq<P.Packet>, p: P.Packet)
    ensures Sent(s, packets + [p]) == var m := Sent(s, packets); m.(net := m.net + {p})
  {
    assert (set q <- packets + [p]) == (set q <- packets) + {p};
    assert Sent(s, packets + [p]).net == Sent(s, packets).net + {p};
  }

  lemma ResendOne(s: P.State, before: seq<P.Packet>, ack: P.Packet, bit: nat)
    requires ack.AckNack? && ack in s.net && bit < WINDOW && ack.bits[bit] && Lookup(s.log, ack.base + bit).Some?
    ensures P.Enabled(Sent(s, before), P.Retransmit(ack, bit))
    ensures P.Apply(Sent(s, before), P.Retransmit(ack, bit))
            == Sent(s, before + [P.Data(ack.base + bit, Lookup(s.log, ack.base + bit).value)])
  {
    SentMore(s, before, P.Data(ack.base + bit, Lookup(s.log, ack.base + bit).value));
  }

  lemma ResendsNext(log: seq<Entry<P.Payload>>, base: nat, bits: Bitmap, n: nat)
    requires 0 < n <= WINDOW
    ensures Resends(log, base, bits, n) ==
            if bits[n - 1] && Lookup(log, base + n - 1).Some?
            then Resends(log, base, bits, n - 1) + [P.Data(base + n - 1, Lookup(log, base + n - 1).value)]
            else Resends(log, base, bits, n - 1)
  {
    assert Resends(log, base, bits, n - 1) + [] == Resends(log, base, bits, n - 1);
  }

  /** One `Retransmit` for each of the first `n` bits that asks for a retained sample. */
  ghost function ResendSteps(log: seq<Entry<P.Payload>>, ack: P.Packet, n: nat): seq<P.Step>
    requires ack.AckNack? && n <= WINDOW
  {
    if n == 0 then []
    else if ack.bits[n - 1] && Lookup(log, ack.base + n - 1).Some?
    then ResendSteps(log, ack, n - 1) + [P.Retransmit(ack, n - 1)]
    else ResendSteps(log, ack, n - 1)
  }

  ghost predicate ResendsRun(s: P.State, ack: P.Packet, n: nat)
    requires ack.AckNack? && n <= WINDOW
  {
    P.Exec(s, ResendSteps(s.log, ack, n)) == Some(Sent(s, Resends(s.log, ack.base, ack.bits, n)))
  }

  lemma ResendsRunNext(s: P.State, ack: P.Packet, n: nat)
    requires ack.AckNack? && ack in s.net && 0 < n <= WINDOW && ResendsRun(s, ack, n - 1)
    ensures ResendsRun(s, ack, n)
  {
    ResendsNext(s.log, ack.base, ack.bits, n);
    if ack.bits[n - 1] && Lookup(s.log, ack.base + n - 1).Some? {
      OneMoreResent(s, ResendSteps(s.log, ack, n - 1), Resends(s.log, ack.base, ack.bits, n - 1), ack, n - 1);
    }
  }

  lemma {:induction false} ResendsAreSteps(s: P.State, ack: P.Packet, n: nat)
    requires ack.AckNack? && ack in s.net && n <= WINDOW
    ensures ResendsRun(s, ack, n)
  {
    if n == 0 {
      assert Sent(s, []) == s;
    } else {
      ResendsAreSteps(s, ack, n - 1);
      ResendsRunNext(s, ack, n);
    }
  }

  lemma OneMoreResent(s: P.State, steps: seq<P.Step>, before: seq<P.Packet>, ack: P.Packet, bit: nat)
    requires ack.AckNack? && ack in s.net && bit < WINDOW && ack.bits[bit] && Lookup(s.log, ack.base + bit).Some?
    requires P.Exec(s, steps) == Some(Sent(s, before))
    ensures P.Exec(s, steps + [P.Retransmit(ack, bit)])
            == Some(Sent(s, before + [P.Data(ack.base + bit, Lookup(s.log, ack.base + bit).value)]))
  {
    ResendOne(s, before, ack, bit);
    P.ExecSnoc(s, steps, Sent(s, before), P.Retransmit(ack, bit));
  }

  lemma {:induction false} ResendStepsHandle(log: seq<Entry<P.Payload>>, ack: P.Packet, n: nat)
    requires ack.AckNack? && n <= WINDOW
    ensures Recovery.Handled(ResendSteps(log, ack, n), ack, log, n)
    ensures forall st <- ResendSteps(log, ack, n) :: st.Retransmit? && st.ack == ack
  {
    if n > 0 {
      ResendStepsHandle(log, ack, n - 1);
      if ack.bits[n - 1] && Lookup(log, ack.base + n - 1).Some? {
        Recovery.HandledMore(ResendSteps(log, ack, n - 1), [P.Retransmit(ack, n - 1)], ack, log, n);
      }
    }
  }

  /** Handled stays handled, whatever else is done before and after. */
  lemma HandledWithin(before: seq<P.Step>, steps: seq<P.Step>, after: seq<P.Step>, ack: P.Packet, log: seq<Entry<P.Payload>>)
    requires ack.AckNack? && Recovery.Handled(steps, ack, log, WINDOW)
    ensures Recovery.Handled(before + steps + after, ack, log, WINDOW)
  {
  }

  /** Everything `HandleAckNack` does is a run of the protocol, so the protocol's invariants cover it. */
  lemma HandlerIsARun(s: P.State, ack: P.Packet) returns (steps: seq<P.Step>)
    requires P.Inv(s) && ack.AckNack? && ack in s.net
    ensures P.Exec(s, steps) ==
            Some(Sent(s.(acked := P.AdvanceAcked(s.acked, ack.base)), Answers(s.log, ack.base, ack.bits)))
    ensures Recovery.Handled(steps, ack, s.log, WINDOW)
    ensures forall st <- steps :: (st.Acknowledge? || st.Retransmit? || st.SendGap?) && st.ack == ack
  {
    var s1 := P.Apply(s, P.Acknowledge(ack));
    assert P.Exec(s, []) == Some(s);
    P.ExecSnoc(s, [], s, P.Acknowledge(ack));
    assert [] + [P.Acknowledge(ack)] == [P.Acknowledge(ack)];
    var resends, packets := ResendSteps(s.log, ack, WINDOW), Resends(s.log, ack.base, ack.bits, WINDOW);
    ResendsAreSteps(s1, ack, WINDOW);
    ResendStepsHandle(s.log, ack, WINDOW);
    var first := [P.Acknowledge(ack)];
    steps := first + resends;
    HandledWithin(first, resends, [], ack, s.log);
    assert steps + [] == steps;
    P.ExecSplit(s, first, resends);
    if s.log != [] && ack.base < Lowest(s.log) {
      var gap, m := P.Gap(ack.base, P.GapEnd(ack.base, Lowest(s.log))), Sent(s1, packets);
      var step := P.SendGap(ack, Lowest(s.log));
      P.ExecSnoc(s, steps, m, step);
      HandledWithin(first, resends, [step], ack, s.log);
      steps := steps + [step];
      SentMore(s1, packets, gap);
    } else {
      assert packets + [] == packets;
    }
  }

  /** The handler's run, followed by the arrival of what it sent, is the second half of a loss-free round:
      so a round is what the handler makes of a request when nothing is lost. */
  lemma HandlerMakesRounds(ack: P.Packet, log: seq<Entry<P.Payload>>, handler: seq<P.Step>, takes: seq<P.Step>, r: P.ReaderId)
    requires ack.AckNack? && Recovery.Handled(handler, ack, log, WINDOW)
    requires forall st <- handler :: (st.Acknowledge? || st.Retransmit? || st.SendGap?) && st.ack == ack
    requires forall st <- handler | st.Retransmit? :: Recovery.Arrives(takes, r, ack.base + st.bit)
    requires forall st <- takes :: st.ReceiveData?
    ensures Recovery.Handled(handler + takes, ack, log, WINDOW) && Recovery.NothingLost(handler + takes, r)
    ensures Recovery.NoWrites(handler + takes)
  {
    HandledWithin([], handler, takes, ack, log);
    assert [] + handler + takes == handler + takes;
    var all := handler + takes;
    forall i | |handler| <= i < |all|
      ensures all[i].ReceiveData?
    {
      assert takes[i - |handler|] in takes;
    }
    forall i | 0 <= i < |all| && all[i].Retransmit? && all[i].ack.AckNack?
      ensures Recovery.Arrives(all[i + 1..], r, all[i].ack.base + all[i].bit)
    {
      assert all[i] == handler[i] && handler[i] in handler;
      ArrivesAfter(handler, takes, i, r, ack.base + all[i].bit);
    }
  }

  lemma ArrivesAfter(handler: seq<P.Step>, takes: seq<P.Step>, i: nat, r: P.ReaderId, sn: nat)
    requires i < |handler| && Recovery.Arrives(takes, r, sn)
    ensures Recovery.Arrives((handler + takes)[i + 1..], r, sn)
  {
    var j, bytes :| 0 <= j < |takes| && takes[j] == P.ReceiveData(r, sn, bytes);
    assert (handler + takes)[i + 1..][|handler| - i - 1 + j] == takes[j];
  }

  // ---------------------------------------------------------------------------
  // So is what a DATA or a HEARTBEAT does to all readers
  // ---------------------------------------------------------------------------

  datatype Contact = ByData(sn: nat, bytes: P.Payload) | ByHeartbeat(first: nat, last: nat) {
    function Packet(): P.Packet {
      match this case ByData(sn, bytes) => P.Data(sn, bytes) case ByHeartbeat(first, last) => P.Heartbeat(first, last)
    }

    function StepOf(r: P.ReaderId): P.Step {
      match this
      case ByData(sn, bytes) => P.ReceiveData(r, sn, bytes)
      case ByHeartbeat(first, last) => P.ReceiveHeartbeat(r, first, last)
    }

    function UpTo(): nat {
      match this case ByData(sn, _) => sn case ByHeartbeat(_, last) => last
    }

    /** What `NotifyData` or `HandleHeartbeat` makes of a tracker. */
    function Met(t: Tracker): Tracker {
      match this case ByData(sn, _) => t.Record(sn).0 case ByHeartbeat(first, _) => t.Init(first)
    }
  }

  /** The handler's loop over the readers: each records or anchors, and reports. */
  function HandlerSteps(c: Contact, rs: seq<P.ReaderId>): seq<P.Step> {
    if rs == [] then []
    else HandlerSteps(c, rs[..|rs| - 1]) + [c.StepOf(rs[|rs| - 1])] + [P.Report(rs[|rs| - 1], c.UpTo())]
  }

  ghost function RepliesOf(s: P.State, c: Contact, rs: seq<P.ReaderId>): set<P.Packet>
    requires forall r <- rs :: r in s.readers
  {
    set r, p | r in rs && p in P.Reply(r, c.Met(s.readers[r].tracker).Missing(c.UpTo())) :: p
  }

  /** Every reader of `rs` has met the packet, and no other has changed. */
  ghost predicate AllMet(s: P.State, s': P.State, c: Contact, rs: seq<P.ReaderId>) {
    && s'.log == s.log && s'.acked == s.acked && s'.readers.Keys == s.readers.Keys
    && (forall r <- s.readers | r in rs :: s'.readers[r].tracker == c.Met(s.readers[r].tracker))
    && forall r <- s.readers | r !in rs :: s'.readers[r] == s.readers[r]
  }

  /** Only reader `r` changed: it has met the packet. */
  ghost predicate OneMet(m: P.State, m': P.State, c: Contact, r: P.ReaderId) {
    && r in m.readers && m'.log == m.log && m'.acked == m.acked
    && exists rd: P.Reader :: rd.tracker == c.Met(m.readers[r].tracker) && m'.readers == m.readers[r := rd]
  }

  lemma Recorded(m: P.State, c: Contact, r: P.ReaderId) returns (m': P.State)
    requires P.Inv(m) && r in m.readers && c.Packet() in m.net
    ensures P.Enabled(m, c.StepOf(r)) && m' == P.Apply(m, c.StepOf(r))
    ensures P.Inv(m') && OneMet(m, m', c, r) && m'.net == m.net && P.Enabled(m', P.Report(r, c.UpTo()))
  {
    P.StepKeepsInv(m, c.StepOf(r));
    m' := P.Apply(m, c.StepOf(r));
    assert m'.readers == m.readers[r := m'.readers[r]];
  }

  lemma Reported(m: P.State, r: P.ReaderId, last: nat) returns (m': P.State)
    requires P.Inv(m) && P.Enabled(m, P.Report(r, last))
    ensures m' == P.Apply(m, P.Report(r, last)) && P.Inv(m') && m'.log == m.log && m'.acked == m.acked
    ensures m'.readers == m.readers[r := m.readers[r].(due := m.readers[r].due - multiset{last})]
    ensures m'.net == m.net + P.Reply(r, m.readers[r].tracker.Missing(last))
  {
    P.StepKeepsInv(m, P.Report(r, last));
    m' := P.Apply(m, P.Report(r, last));
  }

  lemma OneIsServed(m: P.State, c: Contact, r: P.ReaderId, steps: seq<P.Step>, s: P.State) returns (m': P.State)
    requires P.Inv(m) && r in m.readers && c.Packet() in m.net && P.Exec(s, steps) == Some(m)
    ensures P.Exec(s, steps + [c.StepOf(r)] + [P.Report(r, c.UpTo())]) == Some(m')
    ensures P.Inv(m') && OneMet(m, m', c, r)
    ensures m'.net == m.net + P.Reply(r, c.Met(m.readers[r].tracker).Missing(c.UpTo()))
  {
    var m1 := Recorded(m, c, r);
    m' := Reported(m1, r, c.UpTo());
    P.ExecSnoc(s, steps, m, c.StepOf(r));
    P.ExecSnoc(s, steps + [c.StepOf(r)], m1, P.Report(r, c.UpTo()));
    StillOneMet(m, m1, m', c, r);
  }

  lemma StillOneMet(m: P.State, m1: P.State, m': P.State, c: Contact, r: P.ReaderId)
    requires OneMet(m, m1, c, r) && m'.log == m1.log && m'.acked == m1.acked && r in m1.readers
    requires r in m'.readers && m'.readers == m1.readers[r := m'.readers[r]]
    requires m'.readers[r].tracker == m1.readers[r].tracker
    ensures OneMet(m, m', c, r) && m1.readers[r].tracker == c.Met(m.readers[r].tracker)
  {
    assert m'.readers == m.readers[r := m'.readers[r]];
  }

  lemma MetTogether(s: P.State, m: P.State, m': P.State, c: Contact, init: seq<P.ReaderId>, r: P.ReaderId)
    requires AllMet(s, m, c, init) && r !in init && r in s.readers && OneMet(m, m', c, r)
    ensures AllMet(s, m', c, init + [r]) && m.readers[r] == s.readers[r]
  {
  }

  lemma RepliesTogether(s: P.State, c: Contact, init: seq<P.ReaderId>, r: P.ReaderId)
    requires (forall q <- init :: q in s.readers) && r in s.readers
    ensures RepliesOf(s, c, init + [r])
            == RepliesOf(s, c, init) + P.Reply(r, c.Met(s.readers[r].tracker).Missing(c.UpTo()))
  {
  }

  ghost predicate Distinct(rs: seq<P.ReaderId>) {
    forall i, j | 0 <= i < j < |rs| :: rs[i] != rs[j]
  }

  lemma LastIsNew(rs: seq<P.ReaderId>)
    requires Distinct(rs) && rs != []
    ensures var n := |rs| - 1;
            rs == rs[..n] + [rs[n]] && rs[n] !in rs[..n] && rs[n] in rs && Distinct(rs[..n]) && forall q <- rs[..n] :: q in rs
  {
  }

  /** From `s` the handler's steps lead to `s'`, every reader of `rs` having met the packet and every
      reply being out. */
  ghost predicate Served(s: P.State, c: Contact, rs: seq<P.ReaderId>, s': P.State)
    requires forall r <- rs :: r in s.readers
  {
    && P.Exec(s, HandlerSteps(c, rs)) == Some(s') && P.Inv(s')
    && AllMet(s, s', c, rs) && s'.net == s.net + RepliesOf(s, c, rs)
  }

  lemma StepsTogether(c: Contact, init: seq<P.ReaderId>, r: P.ReaderId)
    ensures HandlerSteps(c, init + [r]) == HandlerSteps(c, init) + [c.StepOf(r)] + [P.Report(r, c.UpTo())]
  {
    assert (init + [r])[..|init|] == init;
  }

  lemma LastIsServed(s: P.State, c: Contact, init: seq<P.ReaderId>, r: P.ReaderId, m: P.State) returns (s': P.State)
    requires (forall q <- init :: q in s.readers) && r in s.readers && r !in init
    requires c.Packet() in s.net && Served(s, c, init, m)
    ensures Served(s, c, init + [r], s')
  {
    s' := OneIsServed(m, c, r, HandlerSteps(c, init), s);
    StepsTogether(c, init, r);
    MetTogether(s, m, s', c, init, r);
    RepliesTogether(s, c, init, r);
  }

  /** One packet handed to any number of readers: each is served exactly once as its own handler says,
      every reply goes out, nothing else changes, and the whole is a run of the protocol. */
  lemma {:induction false} HandlerServesAll(s: P.State, c: Contact, rs: seq<P.ReaderId>) returns (s': P.State)
    requires P.Inv(s) && c.Packet() in s.net && Distinct(rs) && forall r <- rs :: r in s.readers
    ensures Served(s, c, rs, s')
  {
    if rs == [] {
      assert RepliesOf(s, c, rs) == {};
      s' := s;
    } else {
      var init, r := rs[..|rs| - 1], rs[|rs| - 1];
      LastIsNew(rs);
      var m := HandlerServesAll(s, c, init);
      s' := LastIsServed(s, c, init, r, m);
    }
  }
}
