/**
 The receiver side of reliable delivery, kept by a reliable reader for one remote writer: a
 cumulative watermark `expected` and the set `ahead` of numbers received out of order above it.
 */
module RecvTrackers {
  import opened Wrappers

  // How far above the watermark a received number is remembered.
  const MAX_REORDER_AHEAD: nat := 8192

  // Sequence numbers are 64-bit. The sums of a watermark and up to 32 are unchecked in the code: they
  // cannot wrap as long as the numbers recorded stay below this.
  const SN_LIMIT: nat := U64_LIMIT - 33
  const U64_LIMIT: nat := 0x1_0000_0000_0000_0000

  // Width of the ACKNACK bitmap.
  const WINDOW: nat := 32

  type Bitmap = b: seq<bool> | |b| == WINDOW witness seq(WINDOW, _ => false)

  const NO_BITS: Bitmap := seq(WINDOW, _ => false)

  /** An ACKNACK request: bit N asks for number `base + N`. */
  datatype Request = Request(base: nat, bits: Bitmap, needAck: bool)

  // ---------------------------------------------------------------------------
  // The tracker as a value
  // ---------------------------------------------------------------------------

  datatype Tracker = Tracker(expected: nat, ahead: set<nat>, initDone: bool) {
    ghost predicate Valid() {
      && (!initDone ==> ahead == {} && expected == 0)
      && expected <= SN_LIMIT
      && forall x <- ahead :: expected < x <= expected + MAX_REORDER_AHEAD && x < SN_LIMIT
    }

    function Init(first: nat): Tracker {
      if initDone then this else Tracker(first, ahead, true)
    }

    /** The tracker after number `s` arrives, and whether `s` is reported as new. */
    function Record(s: nat): (Tracker, bool) {
      var t := Init(s);
      if s < t.expected then (t, false)
      else if s == t.expected then
        var (e, a) := Drain(t.expected + 1, t.ahead);
        (Tracker(e, a, true), true)
      else if s in t.ahead then (t, false)
      else if s - t.expected <= MAX_REORDER_AHEAD then (t.(ahead := t.ahead + {s}), true)
      else (t, true)
    }

    /** The ACKNACK that asks for everything missing up to `last`, within one window. */
    function Missing(last: nat): Request {
      if !initDone then Request(0, NO_BITS, false)
      else if last < expected then Request(expected, NO_BITS, false)
      else
        var end := Min(last, expected + WINDOW - 1);
        var bits := seq(WINDOW, k requires 0 <= k < WINDOW => expected + k <= end && expected + k !in ahead);
        Request(expected, bits, exists k | 0 <= k < WINDOW :: bits[k])
    }

    /** Number `s` will never be asked for again. */
    ghost predicate Has(s: nat) {
      s < expected || s in ahead
    }
  }

  const FRESH := Tracker(0, {}, false)

  /** Moves the watermark over the run of remembered numbers it has reached. */
  function Drain(expected: nat, ahead: set<nat>): (nat, set<nat>)
    decreases |ahead|
  {
    if expected in ahead then Drain(expected + 1, ahead - {expected}) else (expected, ahead)
  }

  // ---------------------------------------------------------------------------
  // The tracker as the code keeps it
  // ---------------------------------------------------------------------------

  class RecvTracker {
    var expected: nat
    var ahead: set<nat>
    var initDone: bool

    function View(): Tracker
      reads this
    {
      Tracker(expected, ahead, initDone)
    }

    constructor ()
      ensures View() == FRESH && View().Valid()
    {
      expected, ahead, initDone := 0, {}, false;
    }

    method Init(first: nat)
      requires View().Valid() && first < SN_LIMIT
      modifies this
      ensures View() == old(View()).Init(first) && View().Valid()
    {
      if !initDone {
        expected := first;
        initDone := true;
      }
    }

    method Record(s: nat) returns (isNew: bool)
      requires View().Valid() && s < SN_LIMIT
      modifies this
      ensures (View(), isNew) == old(View()).Record(s)
      ensures View().Valid()
    {
      RecordKeepsValid(View(), s);
      if !initDone {
        expected := s;
        initDone := true;
      }
      if s < expected {
        return false;
      }
      if s == expected {
        expected := expected + 1;
        ghost var target := Drain(expected, ahead);
        while true
          invariant Drain(expected, ahead) == target && initDone
          decreases |ahead|
        {
          var next := expected;
          if next !in ahead {
            break;
          }
          ahead := ahead - {next};
          expected := expected + 1;
        }
        return true;
      }
      if s in ahead {
        return false;
      }
      if s - expected <= MAX_REORDER_AHEAD {
        ahead := ahead + {s};
      }
      return true;
    }

    method Missing(last: nat) returns (r: Request)
      requires View().Valid() && last < U64_LIMIT
      ensures r == View().Missing(last)
    {
      if !initDone {
        return Request(0, NO_BITS, false);
      }
      var base := expected;
      if last < base {
        return Request(base, NO_BITS, false);
      }
      var end := last;
      assert base + WINDOW - 1 < U64_LIMIT; // the 64-bit sum does not wrap
      if end > base + WINDOW - 1 {
        end := base + WINDOW - 1;
      }
      var bits := NO_BITS;
      var needAck := false;
      var sn := base;
      while sn <= end
        invariant base <= sn <= end + 1
        invariant forall k | 0 <= k < WINDOW :: bits[k] == (base + k < sn && base + k !in ahead)
        invariant needAck == exists k | 0 <= k < WINDOW :: bits[k]
      {
        if sn !in ahead {
          bits := bits[sn - base := true];
          needAck := true;
          assert bits[sn - base];
        }
        assert sn + 1 < U64_LIMIT;
        sn := sn + 1;
      }
      r := Request(base, bits, needAck);
      assert r.bits == View().Missing(last).bits;
    }
  }

  // ---------------------------------------------------------------------------
  // Invariants of one call
  // ---------------------------------------------------------------------------

  lemma {:induction false} DrainMeaning(e: nat, ahead: set<nat>)
    ensures var (e', a') := Drain(e, ahead);
            && e <= e' && e' !in a'
            && a' == (set x | x in ahead && !(e <= x < e'))
            && forall x: nat | e <= x < e' :: x in ahead
    decreases |ahead|
  {
    if e in ahead {
      DrainMeaning(e + 1, ahead - {e});
      forall x: nat | e <= x < Drain(e, ahead).0
        ensures x in ahead
      {
        assert x == e || x in ahead - {e};
      }
    }
  }

  lemma RecordKeepsValid(t: Tracker, s: nat)
    requires t.Valid() && s < SN_LIMIT
    ensures t.Record(s).0.Valid()
    ensures t.Record(s).0.initDone
    ensures t.initDone ==> t.expected <= t.Record(s).0.expected
  {
    var t1 := t.Init(s);
    if s == t1.expected {
      var (e, a) := Drain(s + 1, t1.ahead);
      DrainMeaning(s + 1, t1.ahead);
      assert forall x <- a :: x >= e;
      if e > s + 1 {
        assert e - 1 in t1.ahead;
      }
    }
  }

  lemma MissingExact(t: Tracker, last: nat)
    requires t.Valid()
    ensures var q := t.Missing(last);
            && q.needAck == (t.initDone && t.expected <= last)
            && q.base == (if t.initDone then t.expected else 0)
            && (q.needAck ==> q.bits[0])
            && forall k | 0 <= k < WINDOW ::
              q.bits[k] <==> q.needAck && q.base + k <= Min(last, q.base + 31) && !t.Has(q.base + k)
  {
    if t.initDone && t.expected <= last {
      assert t.Missing(last).bits[0];
    }
  }

  /** Once `s` lies within the reorder window, recording it settles it. */
  lemma RecordSettles(t: Tracker, s: nat)
    requires t.Valid() && t.initDone && s <= t.expected + MAX_REORDER_AHEAD && s < SN_LIMIT
    ensures t.Record(s).0.Has(s)
  {
    DrainMeaning(t.expected + 1, t.ahead);
  }

  lemma RecordKeeps(t: Tracker, s: nat, x: nat)
    requires t.Valid() && t.initDone && t.Has(x)
    ensures t.Record(s).0.Has(x)
  {
    DrainMeaning(t.expected + 1, t.ahead);
  }

  /** What a tracker has above its anchor was recorded: nothing else enters. */
  lemma RecordAddsOnly(t: Tracker, s: nat, x: nat)
    requires t.Valid() && t.initDone && t.Record(s).0.Has(x)
    ensures t.Has(x) || x == s
  {
    DrainMeaning(t.expected + 1, t.ahead);
  }

  // ---------------------------------------------------------------------------
  // Refinement: any sequence of calls keeps the set of recorded numbers
  // ---------------------------------------------------------------------------

  datatype Call = InitCall(sn: nat) | RecordCall(sn: nat)

  function ApplyCall(t: Tracker, c: Call): Tracker {
    match c
    case InitCall(s) => t.Init(s)
    case RecordCall(s) => t.Record(s).0
  }

  function Run(t: Tracker, calls: seq<Call>): Tracker {
    if calls == [] then t else ApplyCall(Run(t, calls[..|calls| - 1]), calls[|calls| - 1])
  }

  ghost predicate InRange(calls: seq<Call>) {
    forall c <- calls :: c.sn < SN_LIMIT
  }

  /** The reference: where counting started, and every number accepted since. */
  datatype Receipt = NotStarted | Started(anchor: nat, got: set<nat>)

  ghost function LeastMissing(a: nat, got: set<nat>): (f: nat)
    ensures a <= f && f !in got
    ensures forall x | a <= x < f :: x in got
    decreases got
  {
    if a in got then LeastMissing(a + 1, got - {a}) else a
  }

  ghost function Receive(r: Receipt, c: Call): Receipt {
    match c
    case InitCall(s) => if r.NotStarted? then Started(s, {}) else r
    case RecordCall(s) =>
      var r' := if r.NotStarted? then Started(s, {}) else r;
      if r'.anchor <= s <= LeastMissing(r'.anchor, r'.got) + 8192
      then Started(r'.anchor, r'.got + {s})
      else r'
  }

  ghost function Received(calls: seq<Call>): Receipt {
    if calls == [] then NotStarted else Receive(Received(calls[..|calls| - 1]), calls[|calls| - 1])
  }

  ghost predicate Refines(t: Tracker, r: Receipt) {
    match r
    case NotStarted => t == FRESH
    case Started(a, got) =>
      && t.initDone && a <= t.expected
      && forall x: nat :: x in got <==> a <= x && t.Has(x)
  }

  lemma RefinesFrontier(t: Tracker, r: Receipt)
    requires t.Valid() && Refines(t, r) && r.Started?
    ensures t.expected == LeastMissing(r.anchor, r.got)
    ensures t.ahead == set x | x in r.got && x > t.expected
  {
    var f := LeastMissing(r.anchor, r.got);
    assert forall x: nat | r.anchor <= x < t.expected :: t.Has(x);
    assert !t.Has(t.expected);
  }

  lemma ApplyRefines(t: Tracker, r: Receipt, c: Call)
    requires t.Valid() && Refines(t, r) && c.sn < SN_LIMIT
    ensures ApplyCall(t, c).Valid() && Refines(ApplyCall(t, c), Receive(r, c))
  {
    if c.RecordCall? {
      var s := c.sn;
      RecordKeepsValid(t, s);
      var t0 := t.Init(s);
      var r0 := if r.NotStarted? then Started(s, {}) else r;
      RefinesFrontier(t0, r0);
      var t1 := t.Record(s).0;
      assert t1 == t0.Record(s).0;
      forall x: nat
        ensures x in Receive(r, c).got <==> r0.anchor <= x && t1.Has(x)
      {
        if t0.Has(x) { RecordKeeps(t0, s, x); }
        if t1.Has(x) { RecordAddsOnly(t0, s, x); }
        if x == s <= t0.expected + MAX_REORDER_AHEAD { RecordSettles(t0, s); }
      }
      RecordKeepsValid(t0, s);
    }
  }

  /** After any calls the tracker is exactly the reference set: `expected` is its first gap, `ahead`
      is what lies beyond that gap, and at most 8192 numbers are ever remembered. */
  lemma {:induction false} RunRefines(calls: seq<Call>)
    requires InRange(calls)
    ensures var t, r := Run(FRESH, calls), Received(calls);
            && t.Valid() && Refines(t, r)
            && |t.ahead| <= 8192
            && (r.Started? ==>
                  && t.expected == LeastMissing(r.anchor, r.got)
                  && t.ahead == set x | x in r.got && x > t.expected)
  {
    if calls != [] {
      var init, c := calls[..|calls| - 1], calls[|calls| - 1];
      RunRefines(init);
      assert c in calls;
      ApplyRefines(Run(FRESH, init), Received(init), c);
    }
    var t, r := Run(FRESH, calls), Received(calls);
    BoundedSet(t.ahead, t.expected + 1, MAX_REORDER_AHEAD);
    if r.Started? { RefinesFrontier(t, r); }
  }

  lemma {:induction false} BoundedSet(s: set<nat>, lo: nat, n: nat)
    requires forall x <- s :: lo <= x < lo + n
    ensures |s| <= n
  {
    if n == 0 {
      assert s == {};
    } else {
      BoundedSet(s - {lo + n - 1}, lo, n - 1);
      assert |s| <= |s - {lo + n - 1}| + 1;
    }
  }

  /** The anchor never moves, the set and the watermark only grow. */
  lemma {:induction false} RunGrows(calls: seq<Call>, more: seq<Call>)
    requires InRange(calls + more)
    ensures Run(FRESH, calls).expected <= Run(FRESH, calls + more).expected || !Run(FRESH, calls).initDone
    ensures Received(calls).Started? ==>
              && Received(calls + more).Started?
              && Received(calls + more).anchor == Received(calls).anchor
              && Received(calls).got <= Received(calls + more).got
  {
    if more == [] {
      assert calls + more == calls;
    } else {
      var init, c := more[..|more| - 1], more[|more| - 1];
      assert (calls + more)[..|calls + more| - 1] == calls + init;
      assert (calls + more)[|calls + more| - 1] == c;
      assert InRange(calls + init) by {
        assert forall x <- calls + init :: x in calls + more;
      }
      assert c in calls + more;
      RunGrows(calls, init);
      RunRefines(calls + init);
      RunRefines(calls);
      RecordKeepsValid(Run(FRESH, calls + init), c.sn);
    }
  }

  /** `Record` reports a number as new exactly when the reference set lacks it (at or above the anchor). */
  lemma RecordIsNew(calls: seq<Call>, s: nat)
    requires InRange(calls) && s < SN_LIMIT
    ensures var r := Received(calls);
            Run(FRESH, calls).Record(s).1 == (r.NotStarted? || (r.anchor <= s && s !in r.got))
  {
    RunRefines(calls);
  }

  /** A number recorded inside the reorder window is reported as new at most once. */
  lemma NewAtMostOnce(calls: seq<Call>, s: nat, more: seq<Call>)
    requires InRange(calls + [RecordCall(s)] + more)
    requires var t := Run(FRESH, calls); t.initDone ==> s <= t.expected + 8192
    ensures !Run(FRESH, calls + [RecordCall(s)] + more).Record(s).1
  {
    var once := calls + [RecordCall(s)];
    assert once[..|once| - 1] == calls;
    assert forall x <- calls :: x in once + more;
    assert forall x <- once :: x in once + more;
    assert RecordCall(s) in once;
    RunRefines(calls);
    RunGrows(once, more);
    RecordIsNew(once + more, s);
  }

  /** That promise fails exactly beyond the window: a number not seen before is still reported as new
      when it is recorded a second time iff it lies more than 8192 above the watermark. */
  lemma NewTwiceIff(t: Tracker, s: nat)
    requires t.Valid() && t.initDone && t.expected <= s && s !in t.ahead
    ensures t.Record(s).1
    ensures t.Record(s).0.Record(s).1 <==> s > t.expected + 8192
  {
    DrainMeaning(t.expected + 1, t.ahead);
  }

  // ---------------------------------------------------------------------------
  // One round of requests
  // ---------------------------------------------------------------------------

  lemma {:induction false} RunKeeps(t: Tracker, calls: seq<Call>, x: nat)
    requires t.Valid() && t.initDone && InRange(calls)
    ensures var t' := Run(t, calls);
            && t'.Valid() && t'.initDone && t.expected <= t'.expected
            && (t.Has(x) || (RecordCall(x) in calls && x <= t.expected + MAX_REORDER_AHEAD) ==> t'.Has(x))
  {
    if calls != [] {
      var init, c := calls[..|calls| - 1], calls[|calls| - 1];
      assert calls == init + [c];
      assert forall y <- init :: y in calls;
      assert c in calls;
      RunKeeps(t, init, x);
      var t' := Run(t, init);
      if c.RecordCall? {
        RecordKeepsValid(t', c.sn);
        if t'.Has(x) { RecordKeeps(t', c.sn, x); }
        if c.sn == x && x <= t.expected + MAX_REORDER_AHEAD { RecordSettles(t', x); }
      }
    }
  }

  /** However the answers to a request are reordered, repeated or mixed with other numbers, once all
      of them have arrived the watermark has passed the whole requested window. */
  lemma AnsweredRequestAdvances(t: Tracker, last: nat, calls: seq<Call>)
    requires t.Valid() && t.initDone && InRange(calls)
    requires var q := t.Missing(last); forall k | 0 <= k < WINDOW && q.bits[k] :: RecordCall(q.base + k) in calls
    ensures Run(t, calls).expected > Min(last, t.expected + 31)
  {
    var q, t' := t.Missing(last), Run(t, calls);
    MissingExact(t, last);
    RunKeeps(t, calls, 0);
    forall x: nat | t.expected <= x <= Min(last, t.expected + 31)
      ensures t'.Has(x)
    {
      assert t.Has(x) || q.bits[x - t.expected];
      RunKeeps(t, calls, x);
    }
    assert !t'.Has(t'.expected);
  }
}
