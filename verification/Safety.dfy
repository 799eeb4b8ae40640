/** What holds over every run of the protocol, from the empty state on. */
module Safety {
  import opened Wrappers
  import opened RecvTrackers
  import opened Protocol
  import H = SendHistories

  /** `s` is a state some run reaches. */
  ghost predicate Reachable(s: State) {
    exists steps :: Exec(INIT, steps) == Some(s)
  }

  lemma ReachableInv(s: State)
    requires Reachable(s)
    ensures Inv(s)
  {
    var steps :| Exec(INIT, steps) == Some(s);
    ExecKeepsInv(INIT, steps);
  }

  /** No watermark runs ahead of the writer, and no ACKNACK in flight claims more than its sender has. */
  lemma WatermarksAreSafe(s: State, r: ReaderId, ack: Packet)
    requires Reachable(s) && r in s.readers
    ensures s.readers[r].tracker.expected <= |s.log| + 1
    ensures ack.AckNack? && ack in s.net ==>
              ack.reader in s.readers && ack.base <= s.readers[ack.reader].tracker.expected
  {
    ReachableInv(s);
    assert ReaderInv(s.readers[r], s.log);
    if ack.AckNack? && ack in s.net { assert PacketInv(ack, s); }
  }

  ghost predicate HandedOver(rd: Reader, log: seq<H.Entry<Payload>>, sn: nat) {
    1 <= sn <= |log| && (sn, log[sn - 1].msg) in rd.dispatched
  }

  /** Reader `r` has received every sample from its anchor through `acked` with the bytes written, and
      has been handed each of them once no receive loop is still holding one. */
  ghost predicate AckedThrough(s: State, r: ReaderId) {
    && r in s.readers && s.acked <= |s.log|
    && var rd := s.readers[r];
    && 1 <= rd.anchor <= s.acked + 1
    && (forall x: nat | rd.anchor <= x <= s.acked :: Settled(rd, s.log, x))
    && (rd.received == {} ==> forall x: nat | rd.anchor <= x <= s.acked :: HandedOver(rd, s.log, x))
  }

  lemma AcknowledgementIsSafe(s: State)
    requires Reachable(s) && s.acked != 0
    ensures exists r :: AckedThrough(s, r)
  {
    ReachableInv(s);
    var r :| AckedBy(s, r);
    var rd := s.readers[r];
    assert ReaderInv(rd, s.log);
    forall x: nat | rd.anchor <= x <= s.acked
      ensures Settled(rd, s.log, x)
    {
      assert rd.tracker.Has(x);
    }
    if rd.received == {} {
      forall x: nat | rd.anchor <= x <= s.acked
        ensures HandedOver(rd, s.log, x)
      {
        assert Settled(rd, s.log, x);
      }
    }
    assert AckedThrough(s, r);
  }

  /** With every contacted reader anchored at 1, some reader received every sample through `acked`. */
  lemma AckedFromTheStart(s: State)
    requires Reachable(s) && s.acked != 0
    requires forall r <- s.readers :: s.readers[r].tracker.initDone ==> s.readers[r].anchor == 1
    ensures exists r :: HasAllAcked(s, r)
  {
    AcknowledgementIsSafe(s);
    ReachableInv(s);
    var r :| AckedBy(s, r);
    assert ReaderInv(s.readers[r], s.log);
    forall x: nat | 1 <= x <= s.acked
      ensures Settled(s.readers[r], s.log, x)
    {
      assert s.readers[r].tracker.Has(x);
    }
    assert HasAllAcked(s, r);
  }

  /** Reader `r` received, with the bytes written, everything `acked` covers. */
  ghost predicate HasAllAcked(s: State, r: ReaderId) {
    r in s.readers && forall x: nat | 1 <= x <= s.acked :: Settled(s.readers[r], s.log, x)
  }

  // ---------------------------------------------------------------------------
  // Exactly when `acked` is to be trusted
  // ---------------------------------------------------------------------------

  /** Reader `r` first hears of the writer, by a HEARTBEAT that starts at `n` or by DATA number `n`. */
  ghost predicate FirstContact(s: State, r: ReaderId, contact: Step, n: nat) {
    && Enabled(s, contact) && r in s.readers && !s.readers[r].tracker.initDone
    && match contact
       case ReceiveHeartbeat(r', first, _) => r' == r && first == n
       case ReceiveData(r', sn, _) => r' == r && sn == n
       case _ => false
  }

  ghost predicate OnlyAcks(steps: seq<Step>, r: ReaderId) {
    forall st <- steps :: st.Acknowledge? ==> st.ack.AckNack? && st.ack.reader == r
  }

  /** Reader `r`, anchored at `n`, has received everything below `n`, and `acked` is below its watermark. */
  ghost predicate AckedBelow(s: State, r: ReaderId, n: nat) {
    && Inv(s) && r in s.readers && s.readers[r].tracker.initDone
    && s.readers[r].anchor == n && s.acked < s.readers[r].tracker.expected
    && forall x: nat | 1 <= x < n :: Settled(s.readers[r], s.log, x)
  }

  /** What a reader has received it keeps. */
  lemma SettledStays(s: State, step: Step, r: ReaderId, x: nat)
    requires Inv(s) && Enabled(s, step) && r in s.readers && Settled(s.readers[r], s.log, x)
    ensures r in Apply(s, step).readers && Settled(Apply(s, step).readers[r], Apply(s, step).log, x)
  {
  }

  lemma {:induction false} StaysAckedBelow(s: State, r: ReaderId, n: nat, steps: seq<Step>)
    requires AckedBelow(s, r, n) && Exec(s, steps).Some? && OnlyAcks(steps, r)
    ensures AckedBelow(Exec(s, steps).value, r, n)
  {
    if steps != [] {
      var init, last := steps[..|steps| - 1], steps[|steps| - 1];
      assert last in steps && forall st <- init :: st in steps;
      StaysAckedBelow(s, r, n, init);
      var m := Exec(s, init).value;
      StepKeepsInv(m, last);
      ReaderMoves(m, last, r);
      if last.Acknowledge? {
        assert PacketInv(last.ack, m) && AckInv(last.ack, m);
      }
      forall x: nat | 1 <= x < n
        ensures Settled(Apply(m, last).readers[r], Apply(m, last).log, x)
      {
        SettledStays(m, last, r, x);
      }
    }
  }

  lemma AckedBelowHasAll(s: State, r: ReaderId, n: nat)
    requires AckedBelow(s, r, n)
    ensures HasAllAcked(s, r)
  {
    assert ReaderInv(s.readers[r], s.log);
    forall x: nat | 1 <= x <= s.acked
      ensures Settled(s.readers[r], s.log, x)
    {
      assert s.readers[r].tracker.Has(x);
    }
  }

  lemma ContactAnchors(s: State, r: ReaderId, contact: Step, n: nat)
    requires Inv(s) && FirstContact(s, r, contact, n)
    ensures var s1 := Apply(s, contact);
            && Inv(s1) && s1.log == s.log && s1.acked == s.acked && r in s1.readers
            && var rd := s1.readers[r];
            && rd.tracker.initDone && rd.anchor == n && 1 <= n <= rd.tracker.expected
            && forall x: nat | x < n :: Settled(rd, s.log, x) <==> Settled(s.readers[r], s.log, x)
  {
    StepKeepsInv(s, contact);
    var s1 := Apply(s, contact);
    assert ReaderInv(s.readers[r], s.log) && ReaderInv(s1.readers[r], s1.log);
    if contact.ReceiveData? {
      assert PacketInv(Data(n, contact.bytes), s);
      DrainMeaning(n + 1, s.readers[r].tracker.ahead);
    }
  }

  /** From any state, one more write and its HEARTBEAT make a contacted reader acknowledge everything
      below its watermark. */
  lemma NextHeartbeatAcks(s: State, r: ReaderId) returns (steps: seq<Step>, s': State)
    requires Inv(s) && r in s.readers && s.readers[r].tracker.initDone && |s.log| + 1 < SN_LIMIT
    ensures Exec(s, steps) == Some(s') && OnlyAcks(steps, r)
    ensures s'.acked == AdvanceAcked(s.acked, s.readers[r].tracker.expected)
    ensures s'.log == s.log + [H.Entry(|s.log| + 1, [])]
    ensures r in s'.readers && s'.readers[r].received == s.readers[r].received
    ensures r in s'.readers && s'.readers[r].dispatched == s.readers[r].dispatched
  {
    var s1, s2 := Apply(s, Write([])), Apply(Apply(s, Write([])), SendHeartbeat);
    var first, last := WriteThenBeat(s, s1, s2, r);
    ExecSnoc(s, [], s, Write([]));
    ExecSnoc(s, [] + [Write([])], s1, SendHeartbeat);
    var rest;
    rest, s' := AnswerIsAcked(s2, r, first, last);
    ExecSplit(s, [] + [Write([])] + [SendHeartbeat], rest);
    steps := [] + [Write([])] + [SendHeartbeat] + rest;
  }

  lemma AnswerIsAcked(s: State, r: ReaderId, first: nat, last: nat) returns (steps: seq<Step>, s': State)
    requires r in s.readers && s.readers[r].tracker.Valid() && s.readers[r].tracker.initDone
    requires Heartbeat(first, last) in s.net && s.readers[r].tracker.expected <= last
    ensures Exec(s, steps) == Some(s') && OnlyAcks(steps, r) && s'.log == s.log
    ensures s'.acked == AdvanceAcked(s.acked, s.readers[r].tracker.expected)
    ensures r in s'.readers && s'.readers[r].received == s.readers[r].received
    ensures r in s'.readers && s'.readers[r].dispatched == s.readers[r].dispatched
  {
    var ack := HeartbeatIsAnswered(s, r, first, last);
    var s1 := Apply(s, ReceiveHeartbeat(r, first, last));
    var s2 := Apply(s1, Report(r, last));
    s' := Apply(s2, Acknowledge(ack));
    steps := Steps3(s, ReceiveHeartbeat(r, first, last), s1, Report(r, last), s2, Acknowledge(ack));
  }

  lemma WriteThenBeat(s: State, s1: State, s2: State, r: ReaderId) returns (first: nat, last: nat)
    requires Inv(s) && r in s.readers && |s.log| + 1 < SN_LIMIT
    requires s1 == Apply(s, Write([])) && s1.log != [] && s2 == Apply(s1, SendHeartbeat)
    ensures Heartbeat(first, last) in s2.net && s.readers[r].tracker.expected <= last
    ensures s2.readers == s.readers && s2.acked == s.acked && s.readers[r].tracker.Valid()
  {
    assert ReaderInv(s.readers[r], s.log);
    StepKeepsInv(s, Write([]));
    LogWindow(s1.log);
    first, last := H.Lowest(s1.log), H.Highest(s1.log);
  }

  lemma HeartbeatIsAnswered(s: State, r: ReaderId, first: nat, last: nat) returns (ack: Packet)
    requires r in s.readers && s.readers[r].tracker.Valid() && s.readers[r].tracker.initDone
    requires Heartbeat(first, last) in s.net && s.readers[r].tracker.expected <= last
    ensures var s1 := Apply(s, ReceiveHeartbeat(r, first, last));
            && Enabled(s1, Report(r, last))
            && var s2 := Apply(s1, Report(r, last));
            && ack.AckNack? && ack.reader == r && ack.base == s.readers[r].tracker.expected && ack in s2.net
            && s2.log == s.log && s2.acked == s.acked && r in s2.readers
            && s2.readers[r].received == s.readers[r].received && s2.readers[r].dispatched == s.readers[r].dispatched
  {
    var q := s.readers[r].tracker.Missing(last);
    MissingExact(s.readers[r].tracker, last);
    ack := AckNack(r, q.base, q.bits);
  }

  /** Whatever happens after a reader's first contact, as long as no other reader acknowledges, it has
      received everything `acked` covers: exactly when it had already been handed every sample below the
      number it started with. */
  lemma AckedIsReceivedIff(s: State, r: ReaderId, contact: Step, n: nat)
    requires Reachable(s) && s.acked == 0 && |s.log| + 1 < SN_LIMIT && FirstContact(s, r, contact, n)
    ensures (forall steps, s' | Exec(Apply(s, contact), steps) == Some(s') && OnlyAcks(steps, r) :: HasAllAcked(s', r))
            <==> forall x: nat | 1 <= x < n :: Settled(s.readers[r], s.log, x)
  {
    ReachableInv(s);
    ContactAnchors(s, r, contact, n);
    var s1 := Apply(s, contact);
    if forall x: nat | 1 <= x < n :: Settled(s.readers[r], s.log, x) {
      forall steps, s' | Exec(s1, steps) == Some(s') && OnlyAcks(steps, r)
        ensures HasAllAcked(s', r)
      {
        StaysAckedBelow(s1, r, n, steps);
        AckedBelowHasAll(s', r, n);
      }
    } else {
      var x: nat :| 1 <= x < n && !Settled(s.readers[r], s.log, x);
      assert ReaderInv(s1.readers[r], s1.log);
      var steps, s' := StillMissingAtTheNextAck(s1, r, n, x);
    }
  }

  lemma SameSettled(rd: Reader, rd': Reader, log: seq<H.Entry<Payload>>, e: H.Entry<Payload>, x: nat)
    requires rd'.received == rd.received && rd'.dispatched == rd.dispatched && x <= |log|
    ensures Settled(rd', log + [e], x) <==> Settled(rd, log, x)
  {
  }

  lemma StillMissingAtTheNextAck(s: State, r: ReaderId, n: nat, x: nat) returns (steps: seq<Step>, s': State)
    requires Inv(s) && r in s.readers && s.readers[r].tracker.initDone && |s.log| + 1 < SN_LIMIT
    requires 1 <= x < n <= s.readers[r].tracker.expected && x <= |s.log| && !Settled(s.readers[r], s.log, x)
    ensures Exec(s, steps) == Some(s') && OnlyAcks(steps, r) && !HasAllAcked(s', r)
  {
    steps, s' := NextHeartbeatAcks(s, r);
    SameSettled(s.readers[r], s'.readers[r], s.log, H.Entry(|s.log| + 1, []), x);
    assert x <= s'.acked;
  }

  /** For a reader to which nothing was handed before, that is exactly a first contact with number 1. */
  lemma AckedIsReceivedIffFromOne(s: State, r: ReaderId, contact: Step, n: nat)
    requires Reachable(s) && s.acked == 0 && |s.log| + 1 < SN_LIMIT && FirstContact(s, r, contact, n)
    requires s.readers[r].dispatched == {}
    ensures (forall steps, s' | Exec(Apply(s, contact), steps) == Some(s') && OnlyAcks(steps, r) :: HasAllAcked(s', r))
            <==> n == 1
  {
    ReachableInv(s);
    ContactAnchors(s, r, contact, n);
    assert ReaderInv(s.readers[r], s.log);
    AckedIsReceivedIff(s, r, contact, n);
    if n > 1 {
      assert !Settled(s.readers[r], s.log, 1);
    }
  }

  /** Both kinds of first contact above 1 happen. A late reader starts at the writer's oldest retained
      sample, and `acked` comes to cover evicted samples although no reader received anything at all. */
  lemma AckedMayCoverUnreceivedSamples(s: State, r: ReaderId) returns (steps: seq<Step>, s': State)
    requires Reachable(s) && s.acked == 0 && s.readers == map[r := NEW_READER]
    requires s.log != [] && H.Lowest(s.log) > 1 && Heartbeat(H.Lowest(s.log), H.Highest(s.log)) in s.net
    ensures Exec(s, steps) == Some(s') && s'.acked == H.Lowest(s.log) - 1 > 0
    ensures s'.readers.Keys == {r} && s'.readers[r].received == {} && s'.readers[r].dispatched == {}
  {
    ReachableInv(s);
    LogWindow(s.log);
    var first, last := H.Lowest(s.log), H.Highest(s.log);
    var ack := LateReaderAsks(first, last, r);
    var s1 := Apply(s, ReceiveHeartbeat(r, first, last));
    var s2 := Apply(s1, Report(r, last));
    assert ack in s2.net;
    steps := Steps3(s, ReceiveHeartbeat(r, first, last), s1, Report(r, last), s2, Acknowledge(ack));
    s' := Apply(s2, Acknowledge(ack));
  }

  lemma LateReaderAsks(first: nat, last: nat, r: ReaderId) returns (ack: Packet)
    requires first <= last && first < SN_LIMIT
    ensures ack.AckNack? && ack.base == first && Reply(r, FRESH.Init(first).Missing(last)) == {ack}
  {
    var q := FRESH.Init(first).Missing(last);
    MissingExact(FRESH.Init(first), last);
    ack := AckNack(r, q.base, q.bits);
  }

  lemma Steps3(s: State, a: Step, s1: State, b: Step, s2: State, c: Step) returns (steps: seq<Step>)
    requires Enabled(s, a) && s1 == Apply(s, a) && Enabled(s1, b) && s2 == Apply(s1, b) && Enabled(s2, c)
    ensures steps == [a, b, c] && Exec(s, steps) == Some(Apply(s2, c))
  {
    ExecSnoc(s, [], s, a);
    ExecSnoc(s, [] + [a], s1, b);
    ExecSnoc(s, [] + [a] + [b], s2, c);
    steps := [a, b, c];
    assert steps == [] + [a] + [b] + [c];
  }

  lemma {:induction false} WritesHappen(n: nat)
    requires n < SN_LIMIT
    ensures exists s :: Reachable(s) && |s.log| == n && s.acked == 0 && s.readers == map[]
  {
    if n == 0 {
      assert Exec(INIT, []) == Some(INIT);
    } else {
      WritesHappen(n - 1);
      var s :| Reachable(s) && |s.log| == n - 1 && s.acked == 0 && s.readers == map[];
      ReachableNext(s, Write([]));
    }
  }

  lemma ReachableNext(s: State, step: Step)
    requires Reachable(s) && Enabled(s, step)
    ensures Reachable(Apply(s, step))
  {
    var steps :| Exec(INIT, steps) == Some(s);
    ExecSnoc(INIT, steps, s, step);
  }

  /** Such states are reached, for instance after 257 writes. */
  lemma LateReaderHappens(r: ReaderId)
    ensures exists s ::
      && Reachable(s) && s.acked == 0 && s.readers == map[r := NEW_READER]
      && s.log != [] && H.Lowest(s.log) > 1 && Heartbeat(H.Lowest(s.log), H.Highest(s.log)) in s.net
  {
    WritesHappen(257);
    var s :| Reachable(s) && |s.log| == 257 && s.acked == 0 && s.readers == map[];
    ReachableInv(s);
    LogWindow(s.log);
    ReachableNext(s, Join(r));
    ReachableNext(Apply(s, Join(r)), SendHeartbeat);
    var s' := Apply(Apply(s, Join(r)), SendHeartbeat);
    assert s'.readers == map[r := NEW_READER];
  }

  /** A reader whose first contact is DATA 2, because DATA 1 was lost, never asks for number 1, although
      the writer still holds it. */
  lemma LostFirstSampleHappens(r: ReaderId)
    ensures exists s :: Reachable(s) && s.acked == 0 && |s.log| == 2 && H.Lowest(s.log) == 1
                        && FirstContact(s, r, ReceiveData(r, 2, []), 2)
  {
    assert Exec(INIT, []) == Some(INIT);
    var s1 := Apply(INIT, Write([]));
    ReachableNext(INIT, Write([]));
    var s2 := Apply(s1, Write([]));
    ReachableNext(s1, Write([]));
    var s3 := Apply(s2, Send(2));
    ReachableNext(s2, Send(2));
    var s4 := Apply(s3, Join(r));
    ReachableNext(s3, Join(r));
    ReachableInv(s4);
    LogWindow(s4.log);
    assert FirstContact(s4, r, ReceiveData(r, 2, []), 2);
  }

  /** Everything a reader is ever handed under a number is what the writer wrote under it, first
      send or retransmission, so no reader sees two payloads for one number. */
  lemma Agreement(s: State, r: ReaderId, sn: nat, a: Payload, r': ReaderId, b: Payload)
    requires Reachable(s) && r in s.readers && r' in s.readers
    requires (sn, a) in s.readers[r].dispatched && (sn, b) in s.readers[r'].dispatched
    ensures 1 <= sn <= |s.log| && a == b == s.log[sn - 1].msg
  {
    ReachableInv(s);
    assert ReaderInv(s.readers[r], s.log) && ReaderInv(s.readers[r'], s.log);
    assert Written(s.log, (sn, a).0, (sn, a).1) && Written(s.log, (sn, b).0, (sn, b).1);
  }

  lemma CopiesCarryTheWrittenBytes(s: State, sn: nat, bytes: Payload)
    requires Reachable(s) && Data(sn, bytes) in s.net
    ensures 1 <= sn <= |s.log| && s.log[sn - 1] == H.Entry(sn, bytes)
  {
    ReachableInv(s);
    assert PacketInv(Data(sn, bytes), s);
  }

  /** Nobody asks beyond the history. */
  lemma RequestsLieInTheHistory(s: State, ack: Packet, bit: nat)
    requires Reachable(s) && ack.AckNack? && ack in s.net && bit < WINDOW && ack.bits[bit]
    ensures s.log != [] && 1 <= ack.base + bit <= H.Highest(s.log)
  {
    ReachableInv(s);
    assert PacketInv(ack, s) && AckInv(ack, s);
    assert ReaderInv(s.readers[ack.reader], s.log);
    LogWindow(s.log);
  }

  /** Where the ACKNACK handler that started in `s` looks up bit `bit`: `between[k]` is everything that
      happens, in any task, between the lookups for bits k-1 and k. */
  ghost function LookupState(s: State, between: seq<seq<Step>>, bit: nat): Option<State>
    requires bit < |between|
  {
    if bit == 0 then Exec(s, between[0])
    else
      match LookupState(s, between, bit - 1)
      case None => None
      case Some(m) => Exec(m, between[bit])
  }

  lemma {:induction false} LogGrows(s: State, steps: seq<Step>)
    requires Inv(s) && Exec(s, steps).Some?
    ensures Inv(Exec(s, steps).value) && |s.log| <= |Exec(s, steps).value.log|
  {
    if steps != [] {
      var init := steps[..|steps| - 1];
      LogGrows(s, init);
      StepKeepsInv(Exec(s, init).value, steps[|steps| - 1]);
    }
  }

  lemma {:induction false} LookupsComeLater(s: State, between: seq<seq<Step>>, bit: nat)
    requires Inv(s) && bit < |between| && LookupState(s, between, bit).Some?
    ensures Inv(LookupState(s, between, bit).value) && |s.log| <= |LookupState(s, between, bit).value.log|
  {
    if bit == 0 {
      LogGrows(s, between[0]);
    } else {
      LookupsComeLater(s, between, bit - 1);
      LogGrows(LookupState(s, between, bit - 1).value, between[bit]);
    }
  }

  lemma OneAnswer(log: seq<H.Entry<Payload>>, seenFirst: nat, base: nat, x: nat)
    requires LogInv(log) && log != [] && seenFirst <= H.Lowest(log) && base <= x < base + WINDOW && x <= |log|
    ensures var resent := H.Lookup(log, x).Some?;
            var declared := base < seenFirst && base <= x <= GapEnd(base, seenFirst);
            && !(resent && declared)
            && (!resent && !declared <==> seenFirst <= x < H.Lowest(log))
  {
    LookupWritten(log, x);
  }

  /** Over one run of the ACKNACK handler, which reads the window first and looks the numbers up one by
      one afterwards while the writer goes on: a requested number is retransmitted or declared lost by
      the GAP, never both, and neither exactly when it was evicted in between. */
  lemma HandlerAnswersEachOnce(s: State, ack: Packet, between: seq<seq<Step>>, bit: nat)
    requires Reachable(s) && ack.AckNack? && ack in s.net && bit < WINDOW && ack.bits[bit]
    requires |between| == WINDOW && LookupState(s, between, bit).Some?
    ensures s.log != [] && LookupState(s, between, bit).value.log != []
    ensures var seenFirst, x, log := H.Lowest(s.log), ack.base + bit, LookupState(s, between, bit).value.log;
            var resent := H.Lookup(log, x).Some?;
            var declared := ack.base < seenFirst && ack.base <= x <= GapEnd(ack.base, seenFirst);
            && !(resent && declared)
            && (!resent && !declared <==> seenFirst <= x < H.Lowest(log))
  {
    ReachableInv(s);
    RequestsLieInTheHistory(s, ack, bit);
    LookupsComeLater(s, between, bit);
    var log := LookupState(s, between, bit).value.log;
    WindowSlides(s.log, log);
    OneAnswer(log, H.Lowest(s.log), ack.base, ack.base + bit);
  }

  lemma WindowSlides(log: seq<H.Entry<Payload>>, later: seq<H.Entry<Payload>>)
    requires LogInv(log) && log != [] && LogInv(later) && |log| <= |later|
    ensures H.Lowest(log) <= H.Lowest(later) && H.Highest(log) == |log| <= |later|
  {
    LogWindow(log);
    LogWindow(later);
  }

  // ---------------------------------------------------------------------------
  // The writer gets ahead of a request
  // ---------------------------------------------------------------------------

  lemma ReachableAfter(s: State, steps: seq<Step>)
    requires Reachable(s) && Exec(s, steps).Some?
    ensures Reachable(Exec(s, steps).value)
  {
    var before :| Exec(INIT, before) == Some(s);
    ExecSplit(INIT, before, steps);
  }

  /** Writes `n` samples without anything else happening. */
  lemma {:induction false} WriteMany(s: State, n: nat) returns (steps: seq<Step>, s': State)
    requires LogInv(s.log) && |s.log| + n < SN_LIMIT
    ensures Exec(s, steps) == Some(s') && LogInv(s'.log) && |s'.log| == |s.log| + n
    ensures s'.readers == s.readers && s'.net == s.net && s'.acked == s.acked
    ensures forall x | x in s'.unsent :: x in s.unsent || |s.log| < x
  {
    if n == 0 {
      steps, s' := [], s;
    } else {
      var m;
      steps, m := WriteMany(s, n - 1);
      s' := Apply(m, Write([]));
      ExecSnoc(s, steps, m, Write([]));
      steps := steps + [Write([])];
    }
  }

  /** The only sample was lost; a reader has heard of it and asked for it. */
  ghost predicate AsksForOne(s: State, r: ReaderId, ack: Packet) {
    && Reachable(s) && |s.log| == 1 && s.unsent == {} && ack.AckNack? && ack in s.net && ack.base == 1 && ack.bits[0]
    && r in s.readers && s.readers[r].tracker == Tracker(1, {}, true)
    && forall p <- s.net :: !p.Data?
  }

  lemma SampleIsLost(s: State, r: ReaderId)
    requires s == Apply(Apply(Apply(INIT, Write([])), Send(1)), Lose(Data(1, [])))
    ensures Reachable(s) && |s.log| == 1 && s.unsent == {} && s.net == {} && s.readers == map[]
  {
    assert Exec(INIT, []) == Some(INIT);
    ReachableNext(INIT, Write([]));
    ReachableNext(Apply(INIT, Write([])), Send(1));
    ReachableNext(Apply(Apply(INIT, Write([])), Send(1)), Lose(Data(1, [])));
  }

  lemma ReaderHears(s: State, r: ReaderId) returns (s': State)
    requires Reachable(s) && |s.log| == 1 && s.unsent == {} && s.net == {} && s.readers == map[]
    ensures Reachable(s') && s'.log == s.log && s'.unsent == {} && s'.net == {Heartbeat(1, 1)}
    ensures s'.readers == map[r := NEW_READER]
  {
    ReachableInv(s);
    LogWindow(s.log);
    ReachableNext(s, SendHeartbeat);
    ReachableNext(Apply(s, SendHeartbeat), Join(r));
    s' := Apply(Apply(s, SendHeartbeat), Join(r));
    assert s'.readers == map[r := NEW_READER];
  }

  lemma ReaderAsks(s: State, r: ReaderId) returns (s': State, ack: Packet)
    requires Reachable(s) && |s.log| == 1 && s.unsent == {} && s.net == {Heartbeat(1, 1)}
    requires s.readers == map[r := NEW_READER]
    ensures AsksForOne(s', r, ack)
  {
    var m := Apply(s, ReceiveHeartbeat(r, 1, 1));
    ReachableNext(s, ReceiveHeartbeat(r, 1, 1));
    ReachableNext(m, Report(r, 1));
    var q := Tracker(1, {}, true).Missing(1);
    MissingExact(Tracker(1, {}, true), 1);
    ack := AckNack(r, q.base, q.bits);
    s' := Apply(m, Report(r, 1));
    assert s'.net == {Heartbeat(1, 1)} + {ack};
  }

  lemma RequestForOneHappens(r: ReaderId) returns (s: State, ack: Packet)
    ensures AsksForOne(s, r, ack)
  {
    var lost := Apply(Apply(Apply(INIT, Write([])), Send(1)), Lose(Data(1, [])));
    SampleIsLost(lost, r);
    var heard := ReaderHears(lost, r);
    s, ack := ReaderAsks(heard, r);
  }

  /** It happens that a requested number gets no answer at all: 256 writes between the two reads evict it. */
  lemma NoAnswerHappens(r: ReaderId) returns (s: State, ack: Packet, between: seq<seq<Step>>)
    ensures Reachable(s) && ack.AckNack? && ack in s.net && ack.bits[0] && |between| == WINDOW
    ensures s.log != [] && LookupState(s, between, 0).Some? && LookupState(s, between, 0).value.log != []
    ensures H.Lookup(LookupState(s, between, 0).value.log, ack.base) == None && ack.base >= H.Lowest(s.log)
  {
    s, ack := RequestForOneHappens(r);
    ReachableInv(s);
    var writes, s' := WriteMany(s, 256);
    between := [writes] + seq(WINDOW - 1, _ => []);
    LogWindow(s.log);
    LogWindow(s'.log);
    LookupWritten(s'.log, ack.base);
  }

  /** So, unless the window slides meanwhile, every requested number is answered in exactly one way. */
  lemma RequestsAnsweredOneWay(s: State, ack: Packet, bit: nat)
    requires Reachable(s) && ack.AckNack? && ack in s.net && bit < WINDOW && ack.bits[bit]
    ensures s.log != [] && ack.base + bit <= H.Highest(s.log)
    ensures H.Lookup(s.log, ack.base + bit).Some? <==> H.Lowest(s.log) <= ack.base + bit
    ensures H.Lookup(s.log, ack.base + bit) == None <==>
              ack.base < H.Lowest(s.log) && ack.base <= ack.base + bit <= GapEnd(ack.base, H.Lowest(s.log))
  {
    ReachableInv(s);
    RequestsLieInTheHistory(s, ack, bit);
    LookupWritten(s.log, ack.base + bit);
  }

  /** A GAP in flight covers only numbers the ring has evicted. */
  lemma GapsSpareRetainedSamples(s: State, gap: Packet, sn: nat)
    requires Reachable(s) && gap.Gap? && gap in s.net && gap.start <= sn <= gap.end
    ensures H.Lookup(s.log, sn) == None
  {
    ReachableInv(s);
    assert PacketInv(gap, s);
  }
}
