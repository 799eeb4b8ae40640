/**
 How a reader catches up. A loss-free round is any stretch of a run, with whatever else interleaved,
 in which the reader takes a HEARTBEAT of the current window and sends its request, the writer handles
 every bit of the request, and what is sent to the reader arrives. "Up to date" is relative to the
 anchor: a reader never asks for anything below the number it started with.
 */
module Recovery {
  import opened Wrappers
  import opened RecvTrackers
  import opened Protocol
  import Safety
  import H = SendHistories

  ghost predicate NoWrites(steps: seq<Step>) {
    forall st <- steps :: !st.Write?
  }

  // ---------------------------------------------------------------------------
  // A run seen by one reader's tracker
  // ---------------------------------------------------------------------------

  ghost function CallOf(step: Step, r: ReaderId): seq<Call> {
    match step
    case ReceiveData(r', sn, _) => if r' == r then [RecordCall(sn)] else []
    case ReceiveHeartbeat(r', first, _) => if r' == r then [InitCall(first)] else []
    case _ => []
  }

  ghost function Calls(steps: seq<Step>, r: ReaderId): seq<Call> {
    if steps == [] then [] else Calls(steps[..|steps| - 1], r) + CallOf(steps[|steps| - 1], r)
  }

  lemma StepCalls(m: State, step: Step, r: ReaderId)
    requires Inv(m) && r in m.readers && Enabled(m, step)
    ensures var m', cs := Protocol.Apply(m, step), CallOf(step, r);
            && r in m'.readers && InRange(cs) && |cs| <= 1
            && m'.readers[r].tracker == (if cs == [] then m.readers[r].tracker else ApplyCall(m.readers[r].tracker, cs[0]))
            && (!step.Write? ==> m'.log == m.log)
  {
    if step.ReceiveData? {
      assert PacketInv(Data(step.sn, step.bytes), m);
    } else if step.ReceiveHeartbeat? {
      assert PacketInv(Heartbeat(step.first, step.last), m);
    }
  }

  lemma RunAppend(t: Tracker, cs: seq<Call>, more: seq<Call>)
    requires |more| <= 1
    ensures Run(t, cs + more) == if more == [] then Run(t, cs) else ApplyCall(Run(t, cs), more[0])
  {
    if more == [] {
      assert cs + more == cs;
    } else {
      assert (cs + more)[..|cs|] == cs;
    }
  }

  /** A run does to a tracker exactly the calls the reader's handlers make, and keeps the log when
      nothing is written. */
  lemma {:induction false} TrackerRuns(s: State, steps: seq<Step>, r: ReaderId)
    requires Inv(s) && r in s.readers && Exec(s, steps).Some?
    ensures var s' := Exec(s, steps).value;
            && r in s'.readers
            && s'.readers[r].tracker == Run(s.readers[r].tracker, Calls(steps, r))
            && InRange(Calls(steps, r))
            && (NoWrites(steps) ==> s'.log == s.log)
  {
    if steps != [] {
      var init, last := steps[..|steps| - 1], steps[|steps| - 1];
      TrackerRuns(s, init, r);
      ExecKeepsInv(s, init);
      StepCalls(Exec(s, init).value, last, r);
      RunAppend(s.readers[r].tracker, Calls(init, r), CallOf(last, r));
      assert last in steps && forall st <- init :: st in steps;
    }
  }

  lemma {:induction false} CallMember(steps: seq<Step>, r: ReaderId, j: nat)
    requires j < |steps|
    ensures forall c <- CallOf(steps[j], r) :: c in Calls(steps, r)
  {
    if j < |steps| - 1 {
      CallMember(steps[..|steps| - 1], r, j);
    }
  }

  // ---------------------------------------------------------------------------
  // Rounds
  // ---------------------------------------------------------------------------

  ghost predicate Contacted(s: State, r: ReaderId) {
    r in s.readers && s.readers[r].tracker.initDone
  }

  ghost predicate Arrives(steps: seq<Step>, r: ReaderId, sn: nat) {
    exists j, bytes :: 0 <= j < |steps| && steps[j] == ReceiveData(r, sn, bytes)
  }

  /** The request a reader sends when asked for what it misses up to `last`. */
  function RequestOf(t: Tracker, r: ReaderId, last: nat): Packet {
    AckNack(r, t.Missing(last).base, t.Missing(last).bits)
  }

  /** The writer handles the request: each bit whose sample it holds is retransmitted. */
  ghost predicate Handled(steps: seq<Step>, ack: Packet, log: seq<H.Entry<Payload>>, n: nat)
    requires ack.AckNack? && n <= WINDOW
  {
    forall k | 0 <= k < n && ack.bits[k] && H.Lookup(log, ack.base + k).Some? :: Retransmit(ack, k) in steps
  }

  /** Nothing is lost, and each retransmission arrives at `r` some time after. */
  ghost predicate NothingLost(steps: seq<Step>, r: ReaderId) {
    && (forall st <- steps :: !st.Lose?)
    && forall i | 0 <= i < |steps| && steps[i].Retransmit? && steps[i].ack.AckNack? ::
      Arrives(steps[i + 1..], r, steps[i].ack.base + steps[i].bit)
  }

  /** The steps from `s` are `before`, in which `r` takes a HEARTBEAT of the current window; then `r`
      reports what it misses up to the window's end; then `after`, in which that request is handled and
      nothing is lost. Nothing is written meanwhile. */
  ghost predicate LossFreeRound(s: State, before: seq<Step>, after: seq<Step>, r: ReaderId, s': State) {
    && s.log != [] && NoWrites(before) && NoWrites(after)
    && ReceiveHeartbeat(r, H.Lowest(s.log), H.Highest(s.log)) in before
    && Exec(s, before).Some?
    && var m := Exec(s, before).value;
    && Enabled(m, Report(r, H.Highest(s.log)))
    && Exec(Protocol.Apply(m, Report(r, H.Highest(s.log))), after) == Some(s')
    && Handled(after, RequestOf(m.readers[r].tracker, r, H.Highest(s.log)), s.log, WINDOW)
    && NothingLost(after, r)
  }

  lemma RoundIsARun(s: State, before: seq<Step>, after: seq<Step>, r: ReaderId, s': State)
    requires LossFreeRound(s, before, after, r, s')
    ensures Exec(s, before + [Report(r, H.Highest(s.log))] + after) == Some(s')
  {
    var m := Exec(s, before).value;
    ExecSnoc(s, before, m, Report(r, H.Highest(s.log)));
    ExecSplit(s, before + [Report(r, H.Highest(s.log))], after);
  }

  /** In the steps `after`, whatever `ack` asks for arrives at `r`. */
  ghost predicate AllArrive(ack: Packet, after: seq<Step>, r: ReaderId)
    requires ack.AckNack?
  {
    forall k | 0 <= k < WINDOW && ack.bits[k] :: Arrives(after, r, ack.base + k)
  }

  lemma ArrivesLater(steps: seq<Step>, i: nat, r: ReaderId, sn: nat)
    requires i <= |steps| && Arrives(steps[i..], r, sn)
    ensures Arrives(steps, r, sn)
  {
    var j, bytes :| 0 <= j < |steps[i..]| && steps[i..][j] == ReceiveData(r, sn, bytes);
    assert steps[i + j] == ReceiveData(r, sn, bytes);
  }

  lemma SentArrives(after: seq<Step>, i: nat, r: ReaderId, sn: nat)
    requires NothingLost(after, r) && i < |after|
    requires after[i].Retransmit? && after[i].ack.AckNack? && sn == after[i].ack.base + after[i].bit
    ensures Arrives(after, r, sn)
  {
    ArrivesLater(after, i + 1, r, sn);
  }

  lemma HandledBitArrives(log: seq<H.Entry<Payload>>, ack: Packet, k: nat, after: seq<Step>, r: ReaderId)
    requires ack.AckNack? && k < WINDOW && ack.bits[k] && H.Lookup(log, ack.base + k).Some?
    requires Handled(after, ack, log, WINDOW) && NothingLost(after, r)
    ensures Arrives(after, r, ack.base + k)
  {
    var i :| 0 <= i < |after| && after[i] == Retransmit(ack, k);
    SentArrives(after, i, r, ack.base + k);
  }

  lemma RequestIsHeld(t: Tracker, log: seq<H.Entry<Payload>>, ack: Packet, k: nat)
    requires LogInv(log) && log != [] && t.Valid() && H.Lowest(log) <= t.expected
    requires ack.AckNack? && ack.base == t.Missing(H.Highest(log)).base && ack.bits == t.Missing(H.Highest(log)).bits
    requires k < WINDOW && ack.bits[k]
    ensures H.Lookup(log, ack.base + k).Some?
  {
    MissingExact(t, H.Highest(log));
    LogWindow(log);
    LookupWritten(log, ack.base + k);
  }

  /** A handled request whose base the ring still holds is answered in full. */
  lemma HandledArrives(t: Tracker, log: seq<H.Entry<Payload>>, ack: Packet, after: seq<Step>, r: ReaderId)
    requires LogInv(log) && log != [] && t.Valid() && H.Lowest(log) <= t.expected
    requires ack.AckNack? && ack.base == t.Missing(H.Highest(log)).base && ack.bits == t.Missing(H.Highest(log)).bits
    requires Handled(after, ack, log, WINDOW) && NothingLost(after, r)
    ensures AllArrive(ack, after, r)
  {
    forall k | 0 <= k < WINDOW && ack.bits[k]
      ensures Arrives(after, r, ack.base + k)
    {
      RequestIsHeld(t, log, ack, k);
      HandledBitArrives(log, ack, k, after, r);
    }
  }

  lemma ArrivalIsCall(after: seq<Step>, r: ReaderId, sn: nat)
    requires Arrives(after, r, sn)
    ensures RecordCall(sn) in Calls(after, r)
  {
    var j, bytes :| 0 <= j < |after| && after[j] == ReceiveData(r, sn, bytes);
    CallMember(after, r, j);
    assert RecordCall(sn) in CallOf(after[j], r);
  }

  lemma AllAreCalls(t: Tracker, last: nat, after: seq<Step>, r: ReaderId)
    requires AllArrive(RequestOf(t, r, last), after, r)
    ensures var q := t.Missing(last);
            forall k | 0 <= k < WINDOW && q.bits[k] :: RecordCall(q.base + k) in Calls(after, r)
  {
    var q := t.Missing(last);
    forall k | 0 <= k < WINDOW && q.bits[k]
      ensures RecordCall(q.base + k) in Calls(after, r)
    {
      ArrivalIsCall(after, r, q.base + k);
    }
  }

  lemma ArrivalsAreCalls(t: Tracker, last: nat, after: seq<Step>, r: ReaderId)
    requires t.Valid() && t.initDone && AllArrive(RequestOf(t, r, last), after, r) && InRange(Calls(after, r))
    ensures Run(t, Calls(after, r)).expected > Min(last, t.expected + 31)
  {
    AllAreCalls(t, last, after, r);
    AnsweredRequestAdvances(t, last, Calls(after, r));
  }

  lemma ArrivalsAdvance(n: State, after: seq<Step>, r: ReaderId)
    requires Inv(n) && n.log != [] && Contacted(n, r) && NoWrites(after) && Exec(n, after).Some?
    requires AllArrive(RequestOf(n.readers[r].tracker, r, H.Highest(n.log)), after, r)
    ensures var s' := Exec(n, after).value;
            && Inv(s') && s'.log == n.log && Contacted(s', r)
            && s'.readers[r].tracker.expected > Min(H.Highest(n.log), n.readers[r].tracker.expected + 31)
  {
    TrackerRuns(n, after, r);
    ExecKeepsInv(n, after);
    assert ReaderInv(n.readers[r], n.log);
    ArrivalsAreCalls(n.readers[r].tracker, H.Highest(n.log), after, r);
    RunKeeps(n.readers[r].tracker, Calls(after, r), 0);
  }

  lemma BeforeKeeps(s: State, before: seq<Step>, r: ReaderId)
    requires Inv(s) && Contacted(s, r) && NoWrites(before) && Exec(s, before).Some?
    ensures var m := Exec(s, before).value;
            && Inv(m) && m.log == s.log && Contacted(m, r)
            && s.readers[r].tracker.expected <= m.readers[r].tracker.expected
  {
    TrackerRuns(s, before, r);
    ExecKeepsInv(s, before);
    assert ReaderInv(s.readers[r], s.log);
    RunKeeps(s.readers[r].tracker, Calls(before, r), 0);
  }

  /** While the ring holds what the reader needs next, one round moves the watermark past everything
      missing in its 32-number window. */
  lemma RoundAdvances(s: State, before: seq<Step>, after: seq<Step>, r: ReaderId, s': State)
    requires Inv(s) && Contacted(s, r) && LossFreeRound(s, before, after, r, s')
    requires H.Lowest(s.log) <= s.readers[r].tracker.expected
    ensures Inv(s') && s'.log == s.log && Contacted(s', r)
    ensures s'.readers[r].tracker.expected > Min(H.Highest(s.log), s.readers[r].tracker.expected + 31)
  {
    BeforeKeeps(s, before, r);
    var m, report := Exec(s, before).value, Report(r, H.Highest(s.log));
    StepKeepsInv(m, report);
    var n := Protocol.Apply(m, report);
    assert n.readers[r].tracker == m.readers[r].tracker && ReaderInv(n.readers[r], n.log);
    HandledArrives(n.readers[r].tracker, s.log, RequestOf(n.readers[r].tracker, r, H.Highest(s.log)), after, r);
    ArrivalsAdvance(n, after, r);
  }

  /** `rounds` loss-free rounds one after another. */
  datatype Round = Round(before: seq<Step>, after: seq<Step>, end: State)

  ghost predicate LossFreeRounds(s: State, rounds: seq<Round>, r: ReaderId) {
    rounds == [] ||
    var k := |rounds| - 1;
    && LossFreeRounds(s, rounds[..k], r)
    && LossFreeRound(StateAfter(s, rounds[..k]), rounds[k].before, rounds[k].after, r, rounds[k].end)
  }

  ghost function StateAfter(s: State, rounds: seq<Round>): State {
    if rounds == [] then s else rounds[|rounds| - 1].end
  }

  lemma {:induction false} RoundsAdvance(s: State, rounds: seq<Round>, r: ReaderId)
    requires Inv(s) && s.log != [] && Contacted(s, r) && LossFreeRounds(s, rounds, r)
    requires H.Lowest(s.log) <= s.readers[r].tracker.expected
    ensures var s' := StateAfter(s, rounds);
            && Inv(s') && s'.log == s.log && Contacted(s', r)
            && H.Lowest(s.log) <= s'.readers[r].tracker.expected
            && s'.readers[r].tracker.expected
               >= if rounds == [] then s.readers[r].tracker.expected
                  else Min(|s.log| + 1, s.readers[r].tracker.expected + 32 * |rounds|)
  {
    if rounds != [] {
      var k := |rounds| - 1;
      LogWindow(s.log);
      RoundsAdvance(s, rounds[..k], r);
      RoundAdvances(StateAfter(s, rounds[..k]), rounds[k].before, rounds[k].after, r, rounds[k].end);
    }
  }

  /** The reader has received, with the bytes written, every sample from its anchor to the last one. */
  ghost predicate CaughtUp(s: State, r: ReaderId) {
    && Contacted(s, r) && s.readers[r].tracker.expected == |s.log| + 1
    && forall x: nat | s.readers[r].anchor <= x <= |s.log| :: Settled(s.readers[r], s.log, x)
  }

  lemma AtTheEndCaughtUp(s: State, r: ReaderId)
    requires Inv(s) && Contacted(s, r) && s.readers[r].tracker.expected > |s.log|
    ensures CaughtUp(s, r)
  {
    assert ReaderInv(s.readers[r], s.log);
    forall x: nat | s.readers[r].anchor <= x <= |s.log|
      ensures Settled(s.readers[r], s.log, x)
    {
      assert s.readers[r].tracker.Has(x);
    }
  }

  /** Eight loss-free rounds are enough: 256 retained samples, 32 to a window. */
  lemma EightRoundsCatchUp(s: State, rounds: seq<Round>, r: ReaderId)
    requires Inv(s) && s.log != [] && Contacted(s, r) && LossFreeRounds(s, rounds, r)
    requires H.Lowest(s.log) <= s.readers[r].tracker.expected && |rounds| >= 8
    ensures StateAfter(s, rounds).log == s.log && CaughtUp(StateAfter(s, rounds), r)
  {
    LogWindow(s.log);
    RoundsAdvance(s, rounds, r);
    AtTheEndCaughtUp(StateAfter(s, rounds), r);
  }

  // ---------------------------------------------------------------------------
  // The writer can always serve a round while it holds the next sample
  // ---------------------------------------------------------------------------

  /** The steps lead from `n` to `n'` without writing anything or losing the request `ack`. */
  ghost predicate Quiet(n: State, steps: seq<Step>, n': State, ack: Packet) {
    && Exec(n, steps) == Some(n') && NoWrites(steps)
    && Inv(n') && ack in n'.net && n'.log == n.log && n'.readers.Keys == n.readers.Keys
  }

  lemma QuietCompose(n: State, a: seq<Step>, m: State, b: seq<Step>, n': State, ack: Packet)
    requires Quiet(n, a, m, ack) && Quiet(m, b, n', ack)
    ensures Quiet(n, a + b, n', ack)
  {
    ExecSplit(n, a, b);
  }

  lemma QuietStep(n: State, step: Step, ack: Packet)
    requires Inv(n) && ack in n.net && Enabled(n, step) && (step.Retransmit? || step.ReceiveData?)
    ensures Quiet(n, [] + [step], Protocol.Apply(n, step), ack)
  {
    StepKeepsInv(n, step);
    ExecSnoc(n, [], n, step);
  }

  /** Retransmits and delivers one requested sample. */
  lemma ServeOne(n: State, r: ReaderId, ack: Packet, k: nat) returns (steps: seq<Step>, n': State)
    requires Inv(n) && n.log != [] && ack.AckNack? && ack in n.net && r in n.readers
    requires k < WINDOW && ack.bits[k] && H.Lookup(n.log, ack.base + k).Some?
    ensures Quiet(n, steps, n', ack) && NothingLost(steps, r) && Retransmit(ack, k) in steps
  {
    var sn := ack.base + k;
    LookupWritten(n.log, sn);
    var send, take := Retransmit(ack, k), ReceiveData(r, sn, n.log[sn - 1].msg);
    var m := Protocol.Apply(n, send);
    n' := Protocol.Apply(m, take);
    QuietStep(n, send, ack);
    QuietStep(m, take, ack);
    steps := ([] + [send]) + ([] + [take]);
    QuietCompose(n, [] + [send], m, [] + [take], n', ack);
    SendThenTake(send, take, r);
  }

  lemma SendThenTake(send: Step, take: Step, r: ReaderId)
    requires send.Retransmit? && send.ack.AckNack? && take.ReceiveData? && take.r == r
    requires take.sn == send.ack.base + send.bit
    ensures var steps := ([] + [send]) + ([] + [take]); NothingLost(steps, r) && send in steps
  {
    var steps := ([] + [send]) + ([] + [take]);
    assert steps[0] == send && steps[1] == take && |steps| == 2;
    assert steps[1..][0] == ReceiveData(r, take.sn, take.bytes);
  }

  lemma NothingLostTogether(a: seq<Step>, b: seq<Step>, r: ReaderId)
    requires NothingLost(a, r) && NothingLost(b, r)
    ensures NothingLost(a + b, r)
  {
    var c := a + b;
    forall i | 0 <= i < |c| && c[i].Retransmit? && c[i].ack.AckNack?
      ensures Arrives(c[i + 1..], r, c[i].ack.base + c[i].bit)
    {
      var sn := c[i].ack.base + c[i].bit;
      if i < |a| {
        assert a[i] == c[i];
        var j, bytes :| 0 <= j < |a[i + 1..]| && a[i + 1..][j] == ReceiveData(r, sn, bytes);
        assert c[i + 1..][j] == ReceiveData(r, sn, bytes);
      } else {
        assert b[i - |a|] == c[i] && c[i + 1..] == b[i - |a| + 1..];
      }
    }
  }

  lemma HandledMore(a: seq<Step>, b: seq<Step>, ack: Packet, log: seq<H.Entry<Payload>>, k: nat)
    requires ack.AckNack? && 0 < k <= WINDOW && Handled(a, ack, log, k - 1) && Retransmit(ack, k - 1) in b
    ensures Handled(a + b, ack, log, k)
  {
  }

  /** Handles the first `k` bits of a request, delivering each retransmission. */
  lemma {:induction false} Serve(n: State, r: ReaderId, ack: Packet, k: nat) returns (steps: seq<Step>, n': State)
    requires Inv(n) && n.log != [] && ack.AckNack? && ack in n.net && r in n.readers && k <= WINDOW
    ensures Quiet(n, steps, n', ack) && NothingLost(steps, r) && Handled(steps, ack, n.log, k)
  {
    if k == 0 {
      steps, n' := [], n;
    } else {
      steps, n' := Serve(n, r, ack, k - 1);
      if ack.bits[k - 1] && H.Lookup(n.log, ack.base + k - 1).Some? {
        var earlier, m := steps, n';
        var rest;
        rest, n' := ServeOne(m, r, ack, k - 1);
        steps := earlier + rest;
        QuietCompose(n, earlier, m, rest, n', ack);
        NothingLostTogether(earlier, rest, r);
        HandledMore(earlier, rest, ack, n.log, k);
      }
    }
  }

  lemma BeatIsTaken(s: State, r: ReaderId, beat: Step, sent: State)
    requires Inv(s) && s.log != [] && Contacted(s, r) && sent == Protocol.Apply(s, SendHeartbeat)
    requires beat == ReceiveHeartbeat(r, H.Lowest(s.log), H.Highest(s.log))
    ensures Inv(sent) && Enabled(sent, beat) && Inv(Protocol.Apply(sent, beat))
    ensures var m := Protocol.Apply(sent, beat);
            && m.log == s.log && m.readers.Keys == s.readers.Keys
            && m.readers[r].tracker == s.readers[r].tracker && Enabled(m, Report(r, H.Highest(s.log)))
  {
    StepKeepsInv(s, SendHeartbeat);
    StepKeepsInv(sent, beat);
  }

  /** The writer's HEARTBEAT reaches a lagging reader, which is then due to send its request. */
  lemma BeatReaches(s: State, r: ReaderId) returns (before: seq<Step>, m: State)
    requires Inv(s) && s.log != [] && Contacted(s, r)
    ensures Exec(s, before) == Some(m) && NoWrites(before) && Inv(m) && m.log == s.log
    ensures ReceiveHeartbeat(r, H.Lowest(s.log), H.Highest(s.log)) in before
    ensures m.readers.Keys == s.readers.Keys && m.readers[r].tracker == s.readers[r].tracker
    ensures Enabled(m, Report(r, H.Highest(s.log)))
  {
    var beat := ReceiveHeartbeat(r, H.Lowest(s.log), H.Highest(s.log));
    var sent := Protocol.Apply(s, SendHeartbeat);
    BeatIsTaken(s, r, beat, sent);
    m := Protocol.Apply(sent, beat);
    ExecSnoc(s, [], s, SendHeartbeat);
    ExecSnoc(s, [] + [SendHeartbeat], sent, beat);
    before := [] + [SendHeartbeat] + [beat];
  }

  lemma RequestGoesOut(m: State, r: ReaderId, last: nat) returns (n: State, ack: Packet)
    requires Inv(m) && Contacted(m, r) && Enabled(m, Report(r, last)) && m.readers[r].tracker.expected <= last
    ensures n == Protocol.Apply(m, Report(r, last)) && Inv(n) && n.log == m.log && n.readers.Keys == m.readers.Keys
    ensures ack == RequestOf(m.readers[r].tracker, r, last) && ack in n.net
  {
    assert ReaderInv(m.readers[r], m.log);
    StepKeepsInv(m, Report(r, last));
    MissingExact(m.readers[r].tracker, last);
    n := Protocol.Apply(m, Report(r, last));
    ack := RequestOf(m.readers[r].tracker, r, last);
  }

  /** From any state with a lagging reader a loss-free round can be run. */
  lemma RoundExists(s: State, r: ReaderId) returns (before: seq<Step>, after: seq<Step>, s': State)
    requires Inv(s) && s.log != [] && Contacted(s, r) && s.readers[r].tracker.expected <= |s.log|
    ensures LossFreeRound(s, before, after, r, s')
  {
    LogWindow(s.log);
    var m, n, ack;
    before, m := BeatReaches(s, r);
    n, ack := RequestGoesOut(m, r, H.Highest(s.log));
    after, s' := Serve(n, r, ack, WINDOW);
  }

  /** A reader can be brought up to date without anything being written. */
  ghost predicate CanCatchUp(s: State, r: ReaderId) {
    exists steps, s' :: NoWrites(steps) && Exec(s, steps) == Some(s') && s'.log == s.log && CaughtUp(s', r)
  }

  lemma CatchUpVia(s: State, steps: seq<Step>, m: State, r: ReaderId)
    requires NoWrites(steps) && Exec(s, steps) == Some(m) && m.log == s.log && CanCatchUp(m, r)
    ensures CanCatchUp(s, r)
  {
    var more, s' :| NoWrites(more) && Exec(m, more) == Some(s') && s'.log == m.log && CaughtUp(s', r);
    ExecSplit(s, steps, more);
    assert NoWrites(steps + more);
  }

  lemma {:induction false} CatchUpExists(s: State, r: ReaderId)
    requires Inv(s) && s.log != [] && Contacted(s, r) && H.Lowest(s.log) <= s.readers[r].tracker.expected
    ensures CanCatchUp(s, r)
    decreases |s.log| + 1 - s.readers[r].tracker.expected
  {
    assert ReaderInv(s.readers[r], s.log);
    LogWindow(s.log);
    if s.readers[r].tracker.expected == |s.log| + 1 {
      AtTheEndCaughtUp(s, r);
      assert Exec(s, []) == Some(s);
    } else {
      var before, after, m := RoundExists(s, r);
      RoundAdvances(s, before, after, r, m);
      RoundIsARun(s, before, after, r, m);
      CatchUpExists(m, r);
      CatchUpVia(s, before + [Report(r, H.Highest(s.log))] + after, m, r);
    }
  }

  // ---------------------------------------------------------------------------
  // Exactly when a reader can catch up
  // ---------------------------------------------------------------------------

  /** A copy of sample `x` can still reach a reader without the ring's help. Packets carry no address
      here: a copy on its way to anyone counts. */
  ghost predicate OnTheWay(s: State, x: nat) {
    x in s.unsent || exists bytes :: Data(x, bytes) in s.net
  }

  /** Reader `r` lacks sample `x`, which is evicted, and no copy of it is on the way. */
  ghost predicate Stranded(s: State, r: ReaderId, x: nat) {
    && Contacted(s, r) && s.log != []
    && !s.readers[r].tracker.Has(x) && x < H.Lowest(s.log) && !OnTheWay(s, x)
  }

  lemma EvictedStaysEvicted(s: State, step: Step, x: nat)
    requires Inv(s) && s.log != [] && x < H.Lowest(s.log) && Enabled(s, step)
    ensures Protocol.Apply(s, step).log != [] && x < H.Lowest(Protocol.Apply(s, step).log)
  {
    LogWindow(s.log);
    if step.Write? {
      StepKeepsInv(s, step);
      LogWindow(Protocol.Apply(s, step).log);
    }
  }

  lemma NoNewCopy(s: State, step: Step, x: nat)
    requires Inv(s) && s.log != [] && x < H.Lowest(s.log) && !OnTheWay(s, x) && Enabled(s, step)
    ensures !OnTheWay(Protocol.Apply(s, step), x)
  {
    LogWindow(s.log);
    if step.Retransmit? {
      LookupWritten(s.log, step.ack.base + step.bit);
    }
  }

  lemma StillLacks(s: State, r: ReaderId, x: nat, step: Step)
    requires Inv(s) && Stranded(s, r, x) && Enabled(s, step)
    ensures Contacted(Protocol.Apply(s, step), r) && !Protocol.Apply(s, step).readers[r].tracker.Has(x)
  {
    assert ReaderInv(s.readers[r], s.log);
    if step.ReceiveData? && step.r == r {
      assert PacketInv(Data(step.sn, step.bytes), s);
      assert OnTheWay(s, step.sn);
      if Protocol.Apply(s, step).readers[r].tracker.Has(x) {
        RecordAddsOnly(s.readers[r].tracker, step.sn, x);
        assert false;
      }
    }
  }

  /** GAPs are not consumed, so a reader that lacks such a sample never gets past it, whatever else is
      written, sent or received. */
  lemma {:induction false} StrandedForever(s: State, r: ReaderId, x: nat, steps: seq<Step>)
    requires Inv(s) && Stranded(s, r, x) && Exec(s, steps).Some?
    ensures Stranded(Exec(s, steps).value, r, x) && Exec(s, steps).value.readers[r].tracker.expected <= x
  {
    if steps != [] {
      var init, last := steps[..|steps| - 1], steps[|steps| - 1];
      StrandedForever(s, r, x, init);
      ExecKeepsInv(s, init);
      var m := Exec(s, init).value;
      EvictedStaysEvicted(m, last, x);
      NoNewCopy(m, last, x);
      StillLacks(m, r, x, last);
    }
  }

  /** Readers do get stranded: a lost sample is evicted before the reader's request for it is handled. */
  lemma StrandedHappens(r: ReaderId) returns (s: State)
    ensures Safety.Reachable(s) && Stranded(s, r, 1)
  {
    var asked, ack := Safety.RequestForOneHappens(r);
    Safety.ReachableInv(asked);
    var writes, s' := Safety.WriteMany(asked, 256);
    Safety.ReachableAfter(asked, writes);
    LogWindow(s'.log);
    s := s';
  }

  /** Every evicted sample the reader still lacks is on the way. */
  ghost predicate HolesOnTheWay(s: State, r: ReaderId)
    requires Contacted(s, r) && s.log != []
  {
    forall x: nat | s.readers[r].tracker.expected <= x < H.Lowest(s.log) && !s.readers[r].tracker.Has(x) :: OnTheWay(s, x)
  }

  /** Gets the copy of sample `x` sent, if it is not yet. */
  lemma CopyGoesOut(s: State, x: nat) returns (steps: seq<Step>, m: State, bytes: Payload)
    requires Inv(s) && 1 <= x <= |s.log| && OnTheWay(s, x)
    ensures Exec(s, steps) == Some(m) && NoWrites(steps) && Inv(m) && Data(x, bytes) in m.net
    ensures m.log == s.log && m.readers == s.readers && s.net <= m.net && s.unsent <= m.unsent + {x}
  {
    if x in s.unsent {
      StepKeepsInv(s, Send(x));
      ExecSnoc(s, [], s, Send(x));
      steps, m, bytes := [] + [Send(x)], Protocol.Apply(s, Send(x)), s.log[x - 1].msg;
    } else {
      bytes :| Data(x, bytes) in s.net;
      steps, m := [], s;
    }
  }

  lemma HolesStayOnTheWay(s: State, m: State, r: ReaderId, x: nat, bytes: Payload)
    requires Inv(m) && s.log == m.log != [] && s.readers == m.readers && s.net <= m.net && s.unsent <= m.unsent + {x}
    requires Contacted(s, r) && HolesOnTheWay(s, r) && x == s.readers[r].tracker.expected && Data(x, bytes) in m.net
    ensures var n := Protocol.Apply(m, ReceiveData(r, x, bytes));
            && Contacted(n, r) && HolesOnTheWay(n, r) && x < n.readers[r].tracker.expected
  {
    var t := s.readers[r].tracker;
    assert ReaderInv(m.readers[r], m.log) && PacketInv(Data(x, bytes), m);
    var n := Protocol.Apply(m, ReceiveData(r, x, bytes));
    var t' := n.readers[r].tracker;
    RecordSettles(t, x);
    RecordKeepsValid(t, x);
    assert x < t'.expected;
    forall y: nat | t'.expected <= y < H.Lowest(n.log) && !t'.Has(y)
      ensures OnTheWay(n, y)
    {
      if t.Has(y) { RecordKeeps(t, x, y); }
      assert OnTheWay(s, y);
    }
  }

  /** Delivers the evicted samples the reader lacks, lowest first, so that none falls out of its window. */
  lemma {:induction false} FillHoles(s: State, r: ReaderId) returns (steps: seq<Step>, s': State)
    requires Inv(s) && s.log != [] && Contacted(s, r) && HolesOnTheWay(s, r)
    ensures Exec(s, steps) == Some(s') && NoWrites(steps) && Inv(s') && s'.log == s.log
    ensures Contacted(s', r) && H.Lowest(s.log) <= s'.readers[r].tracker.expected
    decreases H.Lowest(s.log) - s.readers[r].tracker.expected
  {
    var x := s.readers[r].tracker.expected;
    assert ReaderInv(s.readers[r], s.log);
    LogWindow(s.log);
    if H.Lowest(s.log) <= x {
      steps, s' := [], s;
    } else {
      assert OnTheWay(s, x);
      var first, m, bytes := CopyGoesOut(s, x);
      var take := ReceiveData(r, x, bytes);
      StepKeepsInv(m, take);
      HolesStayOnTheWay(s, m, r, x, bytes);
      var n := Protocol.Apply(m, take);
      ExecSnoc(s, first, m, take);
      var rest;
      rest, s' := FillHoles(n, r);
      ExecSplit(s, first + [take], rest);
      steps := first + [take] + rest;
    }
  }

  /** A reader can be brought up to date without further writes exactly when every evicted sample it
      still lacks is unsent or in flight. */
  lemma CatchUpIff(s: State, r: ReaderId)
    requires Inv(s) && s.log != [] && Contacted(s, r)
    ensures CanCatchUp(s, r) <==> HolesOnTheWay(s, r)
  {
    if HolesOnTheWay(s, r) {
      var steps, m := FillHoles(s, r);
      CatchUpExists(m, r);
      CatchUpVia(s, steps, m, r);
    } else {
      var x: nat :| s.readers[r].tracker.expected <= x < H.Lowest(s.log)
                    && !s.readers[r].tracker.Has(x) && !OnTheWay(s, x);
      LogWindow(s.log);
      forall steps, s' | NoWrites(steps) && Exec(s, steps) == Some(s') && s'.log == s.log
        ensures !CaughtUp(s', r)
      {
        StrandedForever(s, r, x, steps);
      }
    }
  }

  /** In particular, with no copy of the next sample on the way: exactly when the ring still holds it. */
  lemma CatchUpFromTheRingIff(s: State, r: ReaderId)
    requires Inv(s) && s.log != [] && Contacted(s, r) && !OnTheWay(s, s.readers[r].tracker.expected)
    ensures CanCatchUp(s, r) <==> H.Lowest(s.log) <= s.readers[r].tracker.expected
  {
    assert ReaderInv(s.readers[r], s.log);
    CatchUpIff(s, r);
  }
}
