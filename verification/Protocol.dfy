/**
 One reliable writer, any number of reliable readers matched to it, and a network that may lose,
 repeat, delay and reorder what is sent. A step is what the runtime does under one lock: a reader's
 tracker records in one step and is asked for what is missing in another, and any two loops may
 interleave between steps. Only numbering and storing a write are taken together.
 */
module Protocol {
  import opened Wrappers
  import opened Bytes
  import opened RecvTrackers
  import H = SendHistories

  type ReaderId = nat
  type Payload = seq<byte>

  datatype Packet =
    | Data(sn: nat, bytes: Payload)
    | Heartbeat(first: nat, last: nat)
    | AckNack(reader: ReaderId, base: nat, bits: Bitmap)
    | Gap(start: nat, end: nat)

  /**
   `due` are the numbers up to which a receive loop is about to ask the tracker for what is missing.
   `received` are samples it has recorded and is about to push to this reader's queue, `dispatched`
   those it has pushed. `anchor` is a history variable: where the tracker started.
   */
  datatype Reader = Reader(
    tracker: Tracker, anchor: nat, due: multiset<nat>,
    received: set<(nat, Payload)>, dispatched: set<(nat, Payload)>)

  const NEW_READER := Reader(FRESH, 0, multiset{}, {}, {})

  datatype State = State(
    log: seq<H.Entry<Payload>>,
    unsent: set<nat>,
    acked: nat,
    readers: map<ReaderId, Reader>,
    net: set<Packet>)

  const INIT := State([], {}, 0, map[], {})

  datatype Step =
    | Write(bytes: Payload)
    | Send(sn: nat)
    | SendHeartbeat
    | Join(r: ReaderId)
    | ReceiveData(r: ReaderId, sn: nat, bytes: Payload)
    | Dispatch(r: ReaderId, sn: nat, bytes: Payload)
    | DispatchOnly(r: ReaderId, sn: nat, bytes: Payload)
    | ReceiveHeartbeat(r: ReaderId, first: nat, last: nat)
    | Report(r: ReaderId, last: nat)
    | Acknowledge(ack: Packet)
    | Retransmit(ack: Packet, bit: nat)
    | SendGap(ack: Packet, seenFirst: nat)
    | Lose(packet: Packet)

  // ---------------------------------------------------------------------------
  // What each handler computes
  // ---------------------------------------------------------------------------

  /** The ACKNACK a reader sends for a request, if it needs one. */
  function Reply(r: ReaderId, q: Request): set<Packet> {
    if q.needAck then {AckNack(r, q.base, q.bits)} else {}
  }

  /** A DATA arrived: record it, and ask next for any gap at or below it. */
  function OnData(rd: Reader, sn: nat, bytes: Payload): Reader {
    Reader(rd.tracker.Record(sn).0, if rd.tracker.initDone then rd.anchor else sn,
           rd.due + multiset{sn}, rd.received + {(sn, bytes)}, rd.dispatched)
  }

  /** A HEARTBEAT arrived: anchor on first contact, and ask next for any gap up to its last number. */
  function OnHeartbeat(rd: Reader, first: nat, last: nat): Reader {
    rd.(tracker := rd.tracker.Init(first), anchor := if rd.tracker.initDone then rd.anchor else first,
        due := rd.due + multiset{last})
  }

  function AdvanceAcked(acked: nat, base: nat): nat {
    if base == 0 then acked else Max(acked, base - 1)
  }

  /** The last number the GAP answering a request from `base` declares lost. */
  function GapEnd(base: nat, first: nat): nat
    requires base < first
  {
    Min(first - 1, base + WINDOW - 1)
  }

  // ---------------------------------------------------------------------------
  // Steps
  // ---------------------------------------------------------------------------

  predicate Enabled(s: State, step: Step) {
    match step
    case Write(_) => |s.log| + 1 < SN_LIMIT
    case Send(sn) => sn in s.unsent && 1 <= sn <= |s.log|
    case SendHeartbeat => s.log != []
    case Join(r) => r !in s.readers
    case ReceiveData(r, sn, bytes) => r in s.readers && Data(sn, bytes) in s.net
    case Dispatch(r, sn, bytes) => r in s.readers && (sn, bytes) in s.readers[r].received
    case DispatchOnly(r, sn, bytes) =>
      // The reader was matched after a receive loop had passed it over for recording.
      r in s.readers && Data(sn, bytes) in s.net
    case ReceiveHeartbeat(r, first, last) => r in s.readers && Heartbeat(first, last) in s.net
    case Report(r, last) => r in s.readers && last in s.readers[r].due
    case Acknowledge(ack) => ack.AckNack? && ack in s.net
    case Retransmit(ack, bit) =>
      && ack.AckNack? && ack in s.net
      && bit < WINDOW && ack.bits[bit] && H.Lookup(s.log, ack.base + bit).Some?
    case SendGap(ack, seenFirst) =>
      // The window may have slid on since its lower end was read.
      && ack.AckNack? && ack in s.net
      && s.log != [] && ack.base < seenFirst <= H.Lowest(s.log)
    case Lose(packet) => packet in s.net
  }

  function Apply(s: State, step: Step): State
    requires Enabled(s, step)
  {
    match step
    case Write(bytes) =>
      var sn := |s.log| + 1;
      s.(log := s.log + [H.Entry(sn, bytes)], unsent := s.unsent + {sn})
    case Send(sn) =>
      s.(unsent := s.unsent - {sn}, net := s.net + {Data(sn, s.log[sn - 1].msg)})
    case SendHeartbeat =>
      s.(net := s.net + {Heartbeat(H.Lowest(s.log), H.Highest(s.log))})
    case Join(r) =>
      s.(readers := s.readers[r := NEW_READER])
    case ReceiveData(r, sn, bytes) =>
      s.(readers := s.readers[r := OnData(s.readers[r], sn, bytes)])
    case Dispatch(r, sn, bytes) =>
      var rd := s.readers[r];
      var rd' := rd.(received := rd.received - {(sn, bytes)}, dispatched := rd.dispatched + {(sn, bytes)});
      s.(readers := s.readers[r := rd'])
    case DispatchOnly(r, sn, bytes) =>
      var rd := s.readers[r];
      s.(readers := s.readers[r := rd.(dispatched := rd.dispatched + {(sn, bytes)})])
    case ReceiveHeartbeat(r, first, last) =>
      s.(readers := s.readers[r := OnHeartbeat(s.readers[r], first, last)])
    case Report(r, last) =>
      var rd := s.readers[r];
      s.(readers := s.readers[r := rd.(due := rd.due - multiset{last})],
         net := s.net + Reply(r, rd.tracker.Missing(last)))
    case Acknowledge(ack) =>
      s.(acked := AdvanceAcked(s.acked, ack.base))
    case Retransmit(ack, bit) =>
      s.(net := s.net + {Data(ack.base + bit, H.Lookup(s.log, ack.base + bit).value)})
    case SendGap(ack, seenFirst) =>
      s.(net := s.net + {Gap(ack.base, GapEnd(ack.base, seenFirst))})
    case Lose(packet) =>
      s.(net := s.net - {packet})
  }

  /** Where a list of steps leads, if each is enabled in turn. */
  function Exec(s: State, steps: seq<Step>): Option<State> {
    if steps == [] then Some(s)
    else
      match Exec(s, steps[..|steps| - 1])
      case None => None
      case Some(m) =>
        var last := steps[|steps| - 1];
        if Enabled(m, last) then Some(Apply(m, last)) else None
  }

  lemma {:induction false} ExecSplit(s: State, a: seq<Step>, b: seq<Step>)
    ensures Exec(s, a + b) == match Exec(s, a) case None => None case Some(m) => Exec(m, b)
  {
    if b == [] {
      assert a + b == a;
    } else {
      var init := b[..|b| - 1];
      assert (a + b)[..|a + b| - 1] == a + init;
      ExecSplit(s, a, init);
    }
  }

  lemma ExecSnoc(s: State, steps: seq<Step>, m: State, step: Step)
    requires Exec(s, steps) == Some(m) && Enabled(m, step)
    ensures Exec(s, steps + [step]) == Some(Apply(m, step))
  {
    assert (steps + [step])[..|steps|] == steps;
  }

  // ---------------------------------------------------------------------------
  // The invariant
  // ---------------------------------------------------------------------------

  /** `(sn, bytes)` is what the writer wrote under that number. */
  ghost predicate Written(log: seq<H.Entry<Payload>>, sn: nat, bytes: Payload) {
    1 <= sn <= |log| && log[sn - 1].msg == bytes
  }

  ghost predicate LogInv(log: seq<H.Entry<Payload>>) {
    |log| < SN_LIMIT && forall k | 0 <= k < |log| :: log[k].sn == k + 1
  }

  /** Every number from the anchor on that the tracker holds was received with the written bytes. */
  ghost predicate Settled(rd: Reader, log: seq<H.Entry<Payload>>, sn: nat) {
    && 1 <= sn <= |log|
    && ((sn, log[sn - 1].msg) in rd.received || (sn, log[sn - 1].msg) in rd.dispatched)
  }

  ghost predicate TrackerInv(rd: Reader, log: seq<H.Entry<Payload>>) {
    && rd.tracker.Valid()
    && (rd.tracker.initDone ==>
          && 1 <= rd.anchor <= rd.tracker.expected <= |log| + 1
          && forall x: nat | rd.anchor <= x && rd.tracker.Has(x) :: Settled(rd, log, x))
  }

  ghost predicate ReaderInv(rd: Reader, log: seq<H.Entry<Payload>>) {
    && TrackerInv(rd, log)
    && (!rd.tracker.initDone ==> rd.received == {})
    && (forall last <- rd.due :: last <= |log|)
    && forall p | p in rd.received || p in rd.dispatched :: Written(log, p.0, p.1)
  }

  ghost predicate AckInv(ack: Packet, s: State)
    requires ack.AckNack?
  {
    && ack.reader in s.readers
    && var rd := s.readers[ack.reader];
    && rd.tracker.initDone && rd.anchor <= ack.base <= rd.tracker.expected
    && forall k | 0 <= k < WINDOW && ack.bits[k] :: ack.base + k <= |s.log|
  }

  ghost predicate PacketInv(p: Packet, s: State) {
    match p
    case Data(sn, bytes) => Written(s.log, sn, bytes)
    case Heartbeat(first, last) => 1 <= first <= last <= |s.log|
    case AckNack(_, _, _) => AckInv(p, s)
    case Gap(start, end) => s.log != [] && 1 <= start <= end < H.Lowest(s.log)
  }

  /** Some reader started at or below the first number beyond the acknowledged ones and has moved past. */
  ghost predicate AckedBy(s: State, r: ReaderId) {
    && r in s.readers && s.readers[r].tracker.initDone
    && s.readers[r].anchor <= s.acked + 1 <= s.readers[r].tracker.expected
  }

  ghost predicate Inv(s: State) {
    && LogInv(s.log)
    && (forall r <- s.readers :: ReaderInv(s.readers[r], s.log))
    && (forall p <- s.net :: PacketInv(p, s))
    && (s.acked != 0 ==> exists r :: AckedBy(s, r))
  }

  // ---------------------------------------------------------------------------
  // Each step keeps it
  // ---------------------------------------------------------------------------

  lemma LogWindow(log: seq<H.Entry<Payload>>)
    requires LogInv(log) && log != []
    ensures H.Contiguous(log)
    ensures H.Highest(log) == |log| && H.Lowest(log) == Max(1, |log| - 255)
  {
    H.ContiguousHighest(log);
  }

  lemma LookupWritten(log: seq<H.Entry<Payload>>, sn: nat)
    requires LogInv(log) && log != []
    ensures H.Lookup(log, sn) == if H.Lowest(log) <= sn <= |log| then Some(log[sn - 1].msg) else None
  {
    LogWindow(log);
    H.ContiguousLookup(log, sn);
  }

  lemma OnDataInv(rd: Reader, log: seq<H.Entry<Payload>>, sn: nat, bytes: Payload)
    requires LogInv(log) && ReaderInv(rd, log) && Written(log, sn, bytes)
    ensures ReaderInv(OnData(rd, sn, bytes), log)
  {
    var t, rd' := rd.tracker.Init(sn), OnData(rd, sn, bytes);
    RecordKeepsValid(rd.tracker, sn);
    assert rd'.tracker == t.Record(sn).0;
    forall x: nat | rd'.anchor <= x && rd'.tracker.Has(x)
      ensures Settled(rd', log, x)
    {
      RecordAddsOnly(t, sn, x);
      if x != sn { assert Settled(rd, log, x); }
    }
    RecordKeepsValid(t, sn);
    if rd'.tracker.expected > |log| + 1 {
      assert rd'.tracker.Has(|log| + 1);
      assert false;
    }
  }

  lemma OnHeartbeatInv(rd: Reader, log: seq<H.Entry<Payload>>, first: nat, last: nat)
    requires LogInv(log) && ReaderInv(rd, log) && 1 <= first <= last <= |log|
    ensures ReaderInv(OnHeartbeat(rd, first, last), log)
  {
    var rd' := OnHeartbeat(rd, first, last);
    forall x: nat | rd'.anchor <= x && rd'.tracker.Has(x)
      ensures Settled(rd', log, x)
    {
      assert Settled(rd, log, x);
    }
  }

  lemma WriteKeepsReader(rd: Reader, log: seq<H.Entry<Payload>>, e: H.Entry<Payload>)
    requires ReaderInv(rd, log)
    ensures ReaderInv(rd, log + [e])
  {
    forall x: nat | rd.tracker.initDone && rd.anchor <= x && rd.tracker.Has(x)
      ensures Settled(rd, log + [e], x)
    {
      assert Settled(rd, log, x);
    }
  }

  lemma WriteKeepsPacket(s: State, p: Packet, bytes: Payload)
    requires LogInv(s.log) && PacketInv(p, s) && Enabled(s, Write(bytes))
    ensures PacketInv(p, Apply(s, Write(bytes)))
  {
    if p.Gap? {
      LogWindow(s.log);
      LogWindow(Apply(s, Write(bytes)).log);
    }
  }

  lemma WriteKeeps(s: State, bytes: Payload)
    requires Inv(s) && Enabled(s, Write(bytes))
    ensures Inv(Apply(s, Write(bytes)))
  {
    var s' := Apply(s, Write(bytes));
    forall r <- s'.readers
      ensures ReaderInv(s'.readers[r], s'.log)
    {
      WriteKeepsReader(s.readers[r], s.log, H.Entry(|s.log| + 1, bytes));
    }
    forall p <- s'.net
      ensures PacketInv(p, s')
    {
      WriteKeepsPacket(s, p, bytes);
    }
    assert forall r | AckedBy(s, r) :: AckedBy(s', r);
  }

  /** A step that only moves one reader forward disturbs no packet and no acknowledgement. */
  lemma ReaderStepKeeps(s: State, r: ReaderId, rd: Reader, replies: set<Packet>)
    requires Inv(s) && r in s.readers && ReaderInv(rd, s.log)
    requires s.readers[r].tracker.initDone ==>
               && rd.tracker.initDone && rd.anchor == s.readers[r].anchor
               && s.readers[r].tracker.expected <= rd.tracker.expected
    requires var s' := s.(readers := s.readers[r := rd], net := s.net + replies);
             forall p <- replies :: PacketInv(p, s')
    ensures Inv(s.(readers := s.readers[r := rd], net := s.net + replies))
  {
    var s' := s.(readers := s.readers[r := rd], net := s.net + replies);
    forall p <- s'.net
      ensures PacketInv(p, s')
    {
      if p in s.net {
        assert PacketInv(p, s);
      }
    }
    assert forall q | AckedBy(s, q) :: AckedBy(s', q);
  }

  lemma ReceiveDataKeeps(s: State, r: ReaderId, sn: nat, bytes: Payload)
    requires Inv(s) && Enabled(s, ReceiveData(r, sn, bytes))
    ensures Inv(Apply(s, ReceiveData(r, sn, bytes)))
  {
    var rd := s.readers[r];
    assert ReaderInv(rd, s.log) && PacketInv(Data(sn, bytes), s);
    OnDataInv(rd, s.log, sn, bytes);
    RecordKeepsValid(rd.tracker, sn);
    ReaderStepKeeps(s, r, OnData(rd, sn, bytes), {});
    assert s.net + {} == s.net;
  }

  lemma ReceiveHeartbeatKeeps(s: State, r: ReaderId, first: nat, last: nat)
    requires Inv(s) && Enabled(s, ReceiveHeartbeat(r, first, last))
    ensures Inv(Apply(s, ReceiveHeartbeat(r, first, last)))
  {
    var rd := s.readers[r];
    assert ReaderInv(rd, s.log) && PacketInv(Heartbeat(first, last), s);
    OnHeartbeatInv(rd, s.log, first, last);
    ReaderStepKeeps(s, r, OnHeartbeat(rd, first, last), {});
    assert s.net + {} == s.net;
  }

  lemma ReportKeeps(s: State, r: ReaderId, last: nat)
    requires Inv(s) && Enabled(s, Report(r, last))
    ensures Inv(Apply(s, Report(r, last)))
  {
    var rd := s.readers[r];
    var rd' := rd.(due := rd.due - multiset{last});
    assert ReaderInv(rd, s.log);
    forall x: nat | rd.tracker.initDone && rd.anchor <= x && rd.tracker.Has(x)
      ensures Settled(rd', s.log, x)
    {
      assert Settled(rd, s.log, x);
    }
    MissingExact(rd.tracker, last);
    ReaderStepKeeps(s, r, rd', Reply(r, rd.tracker.Missing(last)));
  }

  lemma DispatchKeeps(s: State, r: ReaderId, sn: nat, bytes: Payload)
    requires Inv(s) && Enabled(s, Dispatch(r, sn, bytes))
    ensures Inv(Apply(s, Dispatch(r, sn, bytes)))
  {
    var rd, s' := s.readers[r], Apply(s, Dispatch(r, sn, bytes));
    var rd' := s'.readers[r];
    assert ReaderInv(rd, s.log);
    forall x: nat | rd.tracker.initDone && rd.anchor <= x && rd.tracker.Has(x)
      ensures Settled(rd', s.log, x)
    {
      assert Settled(rd, s.log, x);
    }
    ReaderStepKeeps(s, r, rd', {});
    assert s.net + {} == s.net;
  }

  lemma DispatchOnlyKeeps(s: State, r: ReaderId, sn: nat, bytes: Payload)
    requires Inv(s) && Enabled(s, DispatchOnly(r, sn, bytes))
    ensures Inv(Apply(s, DispatchOnly(r, sn, bytes)))
  {
    var rd := s.readers[r];
    var rd' := rd.(dispatched := rd.dispatched + {(sn, bytes)});
    assert ReaderInv(rd, s.log) && PacketInv(Data(sn, bytes), s);
    forall x: nat | rd.tracker.initDone && rd.anchor <= x && rd.tracker.Has(x)
      ensures Settled(rd', s.log, x)
    {
      assert Settled(rd, s.log, x);
    }
    ReaderStepKeeps(s, r, rd', {});
    assert s.net + {} == s.net;
  }

  /** A step that changes nothing but what is sent keeps everything, if what it adds is sound. */
  lemma SendingKeeps(s: State, s': State)
    requires Inv(s) && s'.log == s.log && s'.readers == s.readers && s'.acked == s.acked
    requires forall p <- s'.net :: p in s.net || PacketInv(p, s)
    ensures Inv(s')
  {
    forall p <- s'.net
      ensures PacketInv(p, s')
    {
      assert PacketInv(p, s);
    }
    assert forall r | AckedBy(s, r) :: AckedBy(s', r);
  }

  lemma SendKeeps(s: State, step: Step)
    requires Inv(s) && Enabled(s, step) && (step.Send? || step.SendHeartbeat? || step.Lose?)
    ensures Inv(Apply(s, step))
  {
    if s.log != [] { LogWindow(s.log); }
    SendingKeeps(s, Apply(s, step));
  }

  lemma RetransmitKeeps(s: State, ack: Packet, bit: nat)
    requires Inv(s) && Enabled(s, Retransmit(ack, bit))
    ensures Inv(Apply(s, Retransmit(ack, bit)))
  {
    if s.log != [] { LookupWritten(s.log, ack.base + bit); }
    SendingKeeps(s, Apply(s, Retransmit(ack, bit)));
  }

  lemma SendGapKeeps(s: State, ack: Packet, seenFirst: nat)
    requires Inv(s) && Enabled(s, SendGap(ack, seenFirst))
    ensures Inv(Apply(s, SendGap(ack, seenFirst)))
  {
    assert PacketInv(ack, s) && AckInv(ack, s);
    assert ReaderInv(s.readers[ack.reader], s.log);
    SendingKeeps(s, Apply(s, SendGap(ack, seenFirst)));
  }

  lemma AcknowledgeKeeps(s: State, ack: Packet)
    requires Inv(s) && Enabled(s, Acknowledge(ack))
    ensures Inv(Apply(s, Acknowledge(ack)))
  {
    var s' := Apply(s, Acknowledge(ack));
    assert PacketInv(ack, s) && AckInv(ack, s);
    forall p <- s'.net
      ensures PacketInv(p, s')
    {
      assert PacketInv(p, s);
    }
    if s'.acked == s.acked {
      assert forall r | AckedBy(s, r) :: AckedBy(s', r);
    } else {
      assert AckedBy(s', ack.reader);
    }
  }

  lemma JoinKeeps(s: State, r: ReaderId)
    requires Inv(s) && Enabled(s, Join(r))
    ensures Inv(Apply(s, Join(r)))
  {
    var s' := Apply(s, Join(r));
    forall p <- s'.net
      ensures PacketInv(p, s')
    {
      assert PacketInv(p, s);
    }
    assert forall q | AckedBy(s, q) :: AckedBy(s', q);
  }

  lemma StepKeepsInv(s: State, step: Step)
    requires Inv(s) && Enabled(s, step)
    ensures Inv(Apply(s, step))
  {
    match step {
      case Write(bytes) => WriteKeeps(s, bytes);
      case Join(r) => JoinKeeps(s, r);
      case ReceiveData(r, sn, bytes) => ReceiveDataKeeps(s, r, sn, bytes);
      case Dispatch(r, sn, bytes) => DispatchKeeps(s, r, sn, bytes);
      case DispatchOnly(r, sn, bytes) => DispatchOnlyKeeps(s, r, sn, bytes);
      case ReceiveHeartbeat(r, first, last) => ReceiveHeartbeatKeeps(s, r, first, last);
      case Report(r, last) => ReportKeeps(s, r, last);
      case Acknowledge(ack) => AcknowledgeKeeps(s, ack);
      case Retransmit(ack, bit) => RetransmitKeeps(s, ack, bit);
      case SendGap(ack, seenFirst) => SendGapKeeps(s, ack, seenFirst);
      case _ => SendKeeps(s, step);
    }
  }

  lemma {:induction false} ExecKeepsInv(s: State, steps: seq<Step>)
    requires Inv(s) && Exec(s, steps).Some?
    ensures Inv(Exec(s, steps).value)
  {
    if steps != [] {
      var init := steps[..|steps| - 1];
      ExecKeepsInv(s, init);
      StepKeepsInv(Exec(s, init).value, steps[|steps| - 1]);
    }
  }

  /** No step takes a reader back: its anchor stays, its watermark does not fall. */
  lemma ReaderMoves(s: State, step: Step, r: ReaderId)
    requires Inv(s) && Enabled(s, step) && r in s.readers && s.readers[r].tracker.initDone
    ensures var s' := Apply(s, step);
            && r in s'.readers && s'.readers[r].tracker.initDone && s'.readers[r].anchor == s.readers[r].anchor
            && s.readers[r].tracker.expected <= s'.readers[r].tracker.expected
  {
    assert ReaderInv(s.readers[r], s.log);
    if step.ReceiveData? {
      assert PacketInv(Data(step.sn, step.bytes), s);
      RecordKeepsValid(s.readers[r].tracker, step.sn);
    }
  }

  // ---------------------------------------------------------------------------
  // What single steps do
  // ---------------------------------------------------------------------------

  /** Taking an ACKNACK confirms everything below its base, and nothing that was not confirmed by it or
      before. */
  lemma AcknowledgeMeaning(s: State, ack: Packet)
    requires Enabled(s, Acknowledge(ack))
    ensures var s' := Apply(s, Acknowledge(ack));
            && s.acked <= s'.acked && s'.log == s.log && s'.readers == s.readers && s'.net == s.net
            && (ack.base > 0 ==> ack.base - 1 <= s'.acked)
            && (s'.acked == s.acked || (ack.base > 0 && s'.acked == ack.base - 1))
  {
  }

  lemma AckedNeverFalls(s: State, step: Step)
    requires Enabled(s, step)
    ensures s.acked <= Apply(s, step).acked
    ensures !step.Acknowledge? ==> Apply(s, step).acked == s.acked
  {
  }

  /** Over every run `acked` never falls, and it is 0 or what some ACKNACK taken on the way confirmed. */
  lemma {:induction false} AckedOverRuns(s: State, steps: seq<Step>)
    requires Exec(s, steps).Some?
    ensures var s' := Exec(s, steps).value;
            && s.acked <= s'.acked
            && (forall st <- steps | st.Acknowledge? && st.ack.AckNack? && st.ack.base > 0 :: st.ack.base - 1 <= s'.acked)
            && (s'.acked == s.acked
                || exists st :: st in steps && st.Acknowledge? && st.ack.AckNack? && st.ack.base > 0
                                && s'.acked == st.ack.base - 1)
  {
    if steps != [] {
      var init, last := steps[..|steps| - 1], steps[|steps| - 1];
      assert steps == init + [last];
      AckedOverRuns(s, init);
      var m := Exec(s, init).value;
      AckedNeverFalls(m, last);
      if last.Acknowledge? {
        AcknowledgeMeaning(m, last.ack);
        assert last in steps;
      }
      assert forall st <- init :: st in steps;
    }
  }

  /** A recorded sample can be handed over, once; and so can one whose recording was skipped. */
  lemma DispatchMeaning(s: State, r: ReaderId, sn: nat, bytes: Payload)
    requires r in s.readers
    ensures Enabled(s, Dispatch(r, sn, bytes)) <==> (sn, bytes) in s.readers[r].received
    ensures Enabled(s, Dispatch(r, sn, bytes)) ==>
              var rd, rd' := s.readers[r], Apply(s, Dispatch(r, sn, bytes)).readers[r];
              && rd'.dispatched == rd.dispatched + {(sn, bytes)} && rd'.received == rd.received - {(sn, bytes)}
              && rd'.tracker == rd.tracker
    ensures Data(sn, bytes) in s.net ==>
              && Enabled(s, DispatchOnly(r, sn, bytes))
              && var rd, rd' := s.readers[r], Apply(s, DispatchOnly(r, sn, bytes)).readers[r];
              && rd'.dispatched == rd.dispatched + {(sn, bytes)} && rd'.received == rd.received
              && rd'.tracker == rd.tracker
  {
  }

  /** A sample is sent once for each write, a report made once for each packet taken; nothing else changes. */
  lemma SendAndReportMeaning(s: State, sn: nat, r: ReaderId, last: nat)
    requires Inv(s)
    ensures Enabled(s, Send(sn)) ==>
              Apply(s, Send(sn)) == s.(unsent := s.unsent - {sn}, net := s.net + {Data(sn, s.log[sn - 1].msg)})
    ensures Enabled(s, Report(r, last)) ==>
              var s', t := Apply(s, Report(r, last)), s.readers[r].tracker;
              && s'.readers == s.readers[r := s.readers[r].(due := s.readers[r].due - multiset{last})]
              && (if t.initDone && t.expected <= last
                  then s'.net == s.net + {AckNack(r, t.expected, t.Missing(last).bits)} else s'.net == s.net)
              && s'.log == s.log && s'.acked == s.acked && s'.unsent == s.unsent
  {
    if Enabled(s, Report(r, last)) {
      assert ReaderInv(s.readers[r], s.log);
      ReportNeeds(s.readers[r].tracker, last);
    }
  }

  lemma ReportNeeds(t: Tracker, last: nat)
    ensures t.initDone && t.expected <= last && t.expected !in t.ahead ==>
              t.Missing(last).needAck && t.Missing(last).base == t.expected
    ensures !t.initDone || last < t.expected ==> !t.Missing(last).needAck
  {
    if t.initDone && t.expected <= last && t.expected !in t.ahead {
      assert t.Missing(last).bits[0];
    }
  }
}
