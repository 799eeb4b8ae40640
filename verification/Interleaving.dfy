/** Several writes at once: whatever way their datagrams interleave, each write is delivered exactly once. */
module Interleaving {
  import opened Wrappers
  import opened Bytes
  import opened Ids
  import opened Messages
  import opened Fragments
  import opened Cdr
  import opened DataPath
  import R = Reassembly

  ghost predicate Fits(w: LargeWrite) {
    |WrapPayload(w.payload)| <= MAX_REASSEMBLY_BYTES
  }

  ghost predicate Large(w: LargeWrite) {
    |WrapPayload(w.payload)| > MAX_FRAGMENT_PAYLOAD
  }

  /** How many datagrams the write takes, and which. */
  ghost function Parts(w: LargeWrite): nat {
    if Large(w) then w.Count() else 1
  }

  ghost function Part(w: LargeWrite, k: nat): seq<byte>
    requires Fits(w) && k < Parts(w)
  {
    if Large(w) then FragMessage(w.h, w.Frag(k)) else DataMessage(w.h, w.eid, w.sn, WrapPayload(w.payload))
  }

  lemma SentParts(w: LargeWrite, msgs: seq<seq<byte>>)
    requires Fits(w) && SentAs(w.h, w.eid, w.sn, w.payload, msgs)
    ensures |msgs| == Parts(w) && forall k | 0 <= k < |msgs| :: msgs[k] == Part(w, k)
  {
  }

  /** Datagram `part` of write number `write` arrived. */
  datatype Arrived = Arrived(write: nat, part: nat, at: nat)

  ghost predicate Writes(own: GuidPrefix, ws: seq<LargeWrite>, start: Buffers) {
    && (forall i | 0 <= i < |ws| :: Fits(ws[i]) && ws[i].h.prefix != own && ws[i].Cut().Key() !in start)
    && forall i, j | 0 <= i < j < |ws| :: ws[i].eid != ws[j].eid || ws[i].sn % 0x1_0000_0000 != ws[j].sn % 0x1_0000_0000
  }

  /** Datagrams of the writes, none twice, all within the stale age of one another. */
  ghost predicate Traffic(ws: seq<LargeWrite>, got: seq<Arrived>) {
    && (forall n | 0 <= n < |got| :: got[n].write < |ws| && got[n].part < Parts(ws[got[n].write]))
    && (forall m, n | 0 <= m < n < |got| :: got[m].write != got[n].write || got[m].part != got[n].part)
    && forall m, n | 0 <= m < |got| && 0 <= n < |got| :: got[n].at - got[m].at <= STALE_FRAG_AGE
  }

  ghost predicate AllFit(ws: seq<LargeWrite>) {
    forall i | 0 <= i < |ws| :: Fits(ws[i])
  }

  ghost function Datagrams(ws: seq<LargeWrite>, got: seq<Arrived>): seq<(seq<byte>, nat)>
    requires AllFit(ws) && Traffic(ws, got)
  {
    seq(|got|, n requires 0 <= n < |got| => (Part(ws[got[n].write], got[n].part), got[n].at))
  }

  lemma TrafficPrefix(ws: seq<LargeWrite>, got: seq<Arrived>, r: Arrived)
    requires Traffic(ws, got + [r])
    ensures Traffic(ws, got) && r.write < |ws| && r.part < Parts(ws[r.write])
    ensures r.part !in Got(got, r.write)
  {
    var all := got + [r];
    assert all[|got|] == r && forall n | 0 <= n < |got| :: all[n] == got[n];
    forall k | k in Got(got, r.write)
      ensures k != r.part
    {
      var n := GotFrom(got, r.write, k);
      assert all[n].part == k;
    }
  }

  /** The parts of write `i` that have arrived. */
  ghost function Got(got: seq<Arrived>, i: nat): set<nat> {
    if got == [] then {}
    else
      var n := |got| - 1;
      Got(got[..n], i) + if got[n].write == i then {got[n].part} else {}
  }

  lemma {:induction false} GotFrom(got: seq<Arrived>, i: nat, k: nat) returns (n: nat)
    requires k in Got(got, i)
    ensures n < |got| && got[n].write == i && got[n].part == k
  {
    var last := |got| - 1;
    if got[last].write == i && got[last].part == k {
      n := last;
    } else {
      n := GotFrom(got[..last], i, k);
    }
  }

  lemma {:induction false} GotIt(got: seq<Arrived>, n: nat)
    requires n < |got|
    ensures got[n].part in Got(got, got[n].write)
  {
    if n < |got| - 1 {
      GotIt(got[..|got| - 1], n);
    }
  }

  lemma GotSnoc(got: seq<Arrived>, r: Arrived, i: nat)
    ensures Got(got + [r], i) == Got(got, i) + if r.write == i then {r.part} else {}
  {
    assert (got + [r])[..|got|] == got;
  }

  /** The fragments among the datagrams. */
  ghost function Frags(ws: seq<LargeWrite>, got: seq<Arrived>): seq<R.Arrival>
    requires AllFit(ws) && Traffic(ws, got)
  {
    if got == [] then []
    else
      var n := |got| - 1;
      assert got == got[..n] + [got[n]];
      TrafficPrefix(ws, got[..n], got[n]);
      var w := ws[got[n].write];
      Frags(ws, got[..n]) + if Large(w) then [R.Arrival(w.Frag(got[n].part), got[n].at)] else []
  }

  lemma FragsSnoc(ws: seq<LargeWrite>, got: seq<Arrived>, r: Arrived)
    requires AllFit(ws) && Traffic(ws, got + [r])
    ensures Traffic(ws, got) && r.write < |ws| && r.part < Parts(ws[r.write])
    ensures Frags(ws, got + [r])
            == Frags(ws, got) + if Large(ws[r.write]) then [R.Arrival(ws[r.write].Frag(r.part), r.at)] else []
  {
    TrafficPrefix(ws, got, r);
    assert (got + [r])[..|got|] == got;
  }

  ghost predicate ComesFrom(ws: seq<LargeWrite>, got: seq<Arrived>, a: R.Arrival, n: nat)
    requires AllFit(ws) && Traffic(ws, got)
  {
    n < |got| && Large(ws[got[n].write]) && a.now == got[n].at && a.frag == ws[got[n].write].Frag(got[n].part)
  }

  lemma {:induction false} FragsComeFrom(ws: seq<LargeWrite>, got: seq<Arrived>, j: nat) returns (n: nat)
    requires AllFit(ws) && Traffic(ws, got) && j < |Frags(ws, got)|
    ensures ComesFrom(ws, got, Frags(ws, got)[j], n)
  {
    var init, r := got[..|got| - 1], got[|got| - 1];
    assert got == init + [r];
    FragsSnoc(ws, init, r);
    if j < |Frags(ws, init)| {
      n := FragsComeFrom(ws, init, j);
      StillComesFrom(ws, init, r, Frags(ws, init)[j], n);
    } else {
      n := |got| - 1;
    }
  }

  lemma StillComesFrom(ws: seq<LargeWrite>, init: seq<Arrived>, r: Arrived, a: R.Arrival, n: nat)
    requires AllFit(ws) && Traffic(ws, init) && Traffic(ws, init + [r]) && ComesFrom(ws, init, a, n)
    ensures ComesFrom(ws, init + [r], a, n)
  {
    assert (init + [r])[n] == init[n];
  }

  lemma KeyTells(ws: seq<LargeWrite>, i: nat, j: nat, own: GuidPrefix, start: Buffers)
    requires Writes(own, ws, start) && i < |ws| && j < |ws| && ws[i].Cut().Key() == ws[j].Cut().Key()
    ensures i == j
  {
  }

  /** Under one write's key only its own fragments arrive, and none late. */
  lemma OwnTraffic(own: GuidPrefix, ws: seq<LargeWrite>, got: seq<Arrived>, start: Buffers, i: nat)
    requires Writes(own, ws, start) && AllFit(ws) && Traffic(ws, got) && i < |ws| && Large(ws[i])
    ensures ws[i].Cut().Valid()
    ensures R.OnlyOwn(ws[i].Cut(), Frags(ws, got)) && R.NoneStale(ws[i].Cut(), Frags(ws, got))
  {
    var frags := Frags(ws, got);
    CountMeaning(|WrapPayload(ws[i].payload)|, MAX_FRAGMENT_PAYLOAD, 0);
    FragIsOwn(ws[i], 0);
    forall j | 0 <= j < |frags| && KeyOf(frags[j].frag) == ws[i].Cut().Key()
      ensures ws[i].Cut().IsRun(frags[j].frag)
    {
      var n := FragsComeFrom(ws, got, j);
      FragIsOwn(ws[got[n].write], got[n].part);
      KeyTells(ws, i, got[n].write, own, start);
    }
    forall j, k | 0 <= j < k < |frags|
      ensures frags[k].now - frags[j].now <= STALE_FRAG_AGE
    {
      var m := FragsComeFrom(ws, got, j);
      var n := FragsComeFrom(ws, got, k);
    }
  }

  /** A fragment counts for a write exactly when it is one of its parts. */
  lemma FragCountsFor(own: GuidPrefix, ws: seq<LargeWrite>, r: Arrived, start: Buffers, i: nat, f: DataFrag)
    requires Writes(own, ws, start) && i < |ws| && r.write < |ws| && r.part < Parts(ws[r.write])
    requires Fits(ws[r.write]) && Large(ws[r.write]) && f == ws[r.write].Frag(r.part)
    ensures KeyOf(f) == ws[i].Cut().Key() <==> r.write == i
    ensures R.Numbers(f) == {r.part}
  {
    FragIsOwn(ws[r.write], r.part);
    if KeyOf(f) == ws[i].Cut().Key() {
      KeyTells(ws, i, r.write, own, start);
    }
  }

  lemma SeenGrows(s: R.Sample, before: seq<R.Arrival>, f: DataFrag, at: nat, part: nat, mine: bool)
    requires R.Numbers(f) == {part} && (KeyOf(f) == s.Key() <==> mine)
    ensures R.Seen(s, before + [R.Arrival(f, at)]) == R.Seen(s, before) + if mine then {part} else {}
  {
    R.SeenSnoc(s, before, R.Arrival(f, at));
  }

  lemma SeenNextLarge(own: GuidPrefix, ws: seq<LargeWrite>, init: seq<Arrived>, r: Arrived, start: Buffers, i: nat)
    requires Writes(own, ws, start) && AllFit(ws) && Traffic(ws, init + [r]) && Traffic(ws, init)
    requires i < |ws| && r.write < |ws| && Large(ws[r.write])
    ensures R.Seen(ws[i].Cut(), Frags(ws, init + [r]))
            == R.Seen(ws[i].Cut(), Frags(ws, init)) + if r.write == i then {r.part} else {}
  {
    FragsSnoc(ws, init, r);
    var f := ws[r.write].Frag(r.part);
    FragCountsFor(own, ws, r, start, i, f);
    SeenGrows(ws[i].Cut(), Frags(ws, init), f, r.at, r.part, r.write == i);
  }

  lemma SeenNextSmall(ws: seq<LargeWrite>, init: seq<Arrived>, r: Arrived)
    requires AllFit(ws) && Traffic(ws, init + [r]) && Traffic(ws, init) && r.write < |ws| && !Large(ws[r.write])
    ensures Frags(ws, init + [r]) == Frags(ws, init)
  {
    FragsSnoc(ws, init, r);
    assert Frags(ws, init) + [] == Frags(ws, init);
  }

  lemma SeenNext(own: GuidPrefix, ws: seq<LargeWrite>, init: seq<Arrived>, r: Arrived, start: Buffers, i: nat)
    requires Writes(own, ws, start) && AllFit(ws) && Traffic(ws, init + [r]) && Traffic(ws, init)
    requires i < |ws| && r.write < |ws| && Large(ws[i])
    ensures R.Seen(ws[i].Cut(), Frags(ws, init + [r]))
            == R.Seen(ws[i].Cut(), Frags(ws, init)) + if r.write == i then {r.part} else {}
  {
    if Large(ws[r.write]) {
      SeenNextLarge(own, ws, init, r, start, i);
    } else {
      SeenNextSmall(ws, init, r);
    }
  }

  lemma {:induction false} SeenIsGot(own: GuidPrefix, ws: seq<LargeWrite>, got: seq<Arrived>, start: Buffers, i: nat)
    requires Writes(own, ws, start) && AllFit(ws) && Traffic(ws, got) && i < |ws| && Large(ws[i])
    ensures R.Seen(ws[i].Cut(), Frags(ws, got)) == Got(got, i)
    decreases |got|
  {
    if |got| > 0 {
      var init, r := got[..|got| - 1], got[|got| - 1];
      assert got == init + [r];
      TrafficPrefix(ws, init, r);
      SeenIsGot(own, ws, init, start, i);
      SeenNext(own, ws, init, r, start, i);
    }
  }

  // ---------------------------------------------------------------------------
  // One datagram after another
  // ---------------------------------------------------------------------------

  ghost function RaisedBy(w: LargeWrite, parts: set<nat>): seq<Event> {
    if parts == R.UpTo(Parts(w)) then [w.Event()] else []
  }

  /** The events raised: each write's when the last of its datagrams is in. */
  ghost function Expected(ws: seq<LargeWrite>, got: seq<Arrived>): seq<Event>
    requires Traffic(ws, got)
  {
    if got == [] then []
    else
      var n := |got| - 1;
      assert got == got[..n] + [got[n]];
      TrafficPrefix(ws, got[..n], got[n]);
      Expected(ws, got[..n]) + RaisedBy(ws[got[n].write], Got(got, got[n].write))
  }

  lemma ExpectedSnoc(ws: seq<LargeWrite>, got: seq<Arrived>, r: Arrived)
    requires Traffic(ws, got + [r])
    ensures Traffic(ws, got) && r.write < |ws|
    ensures Expected(ws, got + [r]) == Expected(ws, got) + RaisedBy(ws[r.write], Got(got + [r], r.write))
  {
    TrafficPrefix(ws, got, r);
    assert (got + [r])[..|got|] == got;
  }

  /** A fragment completes its write's reassembly exactly when it is the last of its parts. */
  lemma FragStep(own: GuidPrefix, ws: seq<LargeWrite>, got: seq<Arrived>, r: Arrived, start: Buffers)
    requires Writes(own, ws, start) && AllFit(ws) && Traffic(ws, got + [r]) && Traffic(ws, got)
    requires r.write < |ws| && r.part < Parts(ws[r.write]) && Large(ws[r.write])
    ensures var w := ws[r.write];
            var next := Received(R.Run(start, Frags(ws, got)).buffers, w.Frag(r.part), r.at);
            && !next.panicked && R.Run(start, Frags(ws, got + [r])) == next
            && next.sample == if Got(got + [r], r.write) == R.UpTo(Parts(w)) then Some(WrapPayload(w.payload)) else None
  {
    var w, a := ws[r.write], R.Arrival(ws[r.write].Frag(r.part), r.at);
    FragsSnoc(ws, got, r);
    TrafficPrefix(ws, got, r);
    OwnTraffic(own, ws, got + [r], start, r.write);
    SeenIsGot(own, ws, got, start, r.write);
    SeenIsGot(own, ws, got + [r], start, r.write);
    FragIsOwn(w, r.part);
    assert r.part in w.Cut().All();
    R.ReassemblyInvertsSplitting(w.Cut(), start, Frags(ws, got), a);
    R.RunSnoc(start, Frags(ws, got), a);
  }

  ghost predicate DeliveredAsExpected(own: GuidPrefix, ws: seq<LargeWrite>, got: seq<Arrived>, start: Buffers,
                                      packets: seq<(seq<byte>, nat)>)
    requires AllFit(ws) && Traffic(ws, got)
  {
    Deliver(own, start, packets) == Done(R.Run(start, Frags(ws, got)).buffers, Expected(ws, got))
  }

  lemma LargeNext(own: GuidPrefix, ws: seq<LargeWrite>, got: seq<Arrived>, r: Arrived, start: Buffers,
                  packets: seq<(seq<byte>, nat)>, data: seq<byte>)
    requires Writes(own, ws, start) && AllFit(ws) && Traffic(ws, got + [r]) && Traffic(ws, got)
    requires r.write < |ws| && r.part < Parts(ws[r.write]) && Large(ws[r.write])
    requires DeliveredAsExpected(own, ws, got, start, packets)
    requires Carries(ws[r.write], own, data, ws[r.write].Frag(r.part))
    ensures DeliveredAsExpected(own, ws, got + [r], start, packets + [(data, r.at)])
  {
    var w := ws[r.write];
    FragStep(own, ws, got, r, start);
    ExpectedSnoc(ws, got, r);
    var before := R.Run(start, Frags(ws, got)).buffers;
    var next, done := Received(before, w.Frag(r.part), r.at), Got(got + [r], r.write) == R.UpTo(Parts(w));
    CarriedIsHandled(w, own, data, w.Frag(r.part), before, r.at, done);
    DeliverSnoc(own, start, packets, data, r.at, before, Expected(ws, got), next.buffers, if done then [w.Event()] else []);
  }

  /** Handling `data` raises the sample's event and nothing else. */
  ghost predicate Raises(w: LargeWrite, own: GuidPrefix, data: seq<byte>) {
    forall buffers: Buffers, now: nat :: HandlePacket(own, data, buffers, now) == Done(buffers, [w.Event()])
  }

  lemma SmallRaises(w: LargeWrite, own: GuidPrefix)
    requires !Large(w) && w.h.prefix != own
    ensures Raises(w, own, DataMessage(w.h, w.eid, w.sn, WrapPayload(w.payload)))
  {
    forall buffers: Buffers, now: nat
      ensures HandlePacket(own, DataMessage(w.h, w.eid, w.sn, WrapPayload(w.payload)), buffers, now) == Done(buffers, [w.Event()])
    {
      DataMessageDelivers(w.h, w.eid, w.sn, w.payload, own, buffers, now);
    }
  }

  lemma SmallIsWhole(ws: seq<LargeWrite>, got: seq<Arrived>, r: Arrived)
    requires Traffic(ws, got + [r]) && r.write < |ws| && !Large(ws[r.write])
    ensures Got(got + [r], r.write) == R.UpTo(Parts(ws[r.write])) == {0}
  {
    var all := got + [r];
    assert all[|got|] == r;
    GotIt(all, |got|);
    assert R.UpTo(1) == {0};
    forall k | k in Got(all, r.write)
      ensures k == 0
    {
      var n := GotFrom(all, r.write, k);
    }
  }

  lemma SmallNext(own: GuidPrefix, ws: seq<LargeWrite>, got: seq<Arrived>, r: Arrived, start: Buffers,
                  packets: seq<(seq<byte>, nat)>, data: seq<byte>)
    requires Writes(own, ws, start) && AllFit(ws) && Traffic(ws, got + [r]) && Traffic(ws, got)
    requires r.write < |ws| && r.part < Parts(ws[r.write]) && !Large(ws[r.write])
    requires DeliveredAsExpected(own, ws, got, start, packets) && Raises(ws[r.write], own, data)
    ensures DeliveredAsExpected(own, ws, got + [r], start, packets + [(data, r.at)])
  {
    FragsSnoc(ws, got, r);
    assert Frags(ws, got) + [] == Frags(ws, got);
    ExpectedSnoc(ws, got, r);
    SmallIsWhole(ws, got, r);
    var before := R.Run(start, Frags(ws, got)).buffers;
    DeliverSnoc(own, start, packets, data, r.at, before, Expected(ws, got), before, [ws[r.write].Event()]);
  }

  lemma DatagramsSnoc(ws: seq<LargeWrite>, got: seq<Arrived>, r: Arrived)
    requires AllFit(ws) && Traffic(ws, got + [r])
    ensures Traffic(ws, got) && r.write < |ws| && r.part < Parts(ws[r.write])
    ensures Datagrams(ws, got + [r]) == Datagrams(ws, got) + [(Part(ws[r.write], r.part), r.at)]
  {
    TrafficPrefix(ws, got, r);
  }

  lemma {:induction false} DeliverInterleaved(own: GuidPrefix, ws: seq<LargeWrite>, got: seq<Arrived>, start: Buffers)
    requires Writes(own, ws, start) && AllFit(ws) && Traffic(ws, got)
    ensures DeliveredAsExpected(own, ws, got, start, Datagrams(ws, got))
    decreases |got|
  {
    if |got| > 0 {
      var init, r := got[..|got| - 1], got[|got| - 1];
      assert got == init + [r];
      DatagramsSnoc(ws, init, r);
      DeliverInterleaved(own, ws, init, start);
      if Large(ws[r.write]) {
        FragCarries(ws[r.write], r.part, own);
        LargeNext(own, ws, init, r, start, Datagrams(ws, init), Part(ws[r.write], r.part));
      } else {
        SmallRaises(ws[r.write], own);
        SmallNext(own, ws, init, r, start, Datagrams(ws, init), Part(ws[r.write], r.part));
      }
    }
  }

  // ---------------------------------------------------------------------------
  // Once each
  // ---------------------------------------------------------------------------

  lemma EventsTell(own: GuidPrefix, ws: seq<LargeWrite>, start: Buffers, i: nat, j: nat)
    requires Writes(own, ws, start) && i < |ws| && j < |ws| && ws[i].Event() == ws[j].Event()
    ensures i == j
  {
    KeyTells(ws, i, j, own, start);
  }

  lemma PartsExist(w: LargeWrite)
    requires Fits(w)
    ensures Parts(w) > 0 && R.UpTo(Parts(w)) != {}
  {
    CountMeaning(|WrapPayload(w.payload)|, MAX_FRAGMENT_PAYLOAD, 0);
    assert 0 in R.UpTo(Parts(w));
  }

  lemma {:induction false} CountSoFar(own: GuidPrefix, ws: seq<LargeWrite>, got: seq<Arrived>, start: Buffers, i: nat)
    requires Writes(own, ws, start) && AllFit(ws) && Traffic(ws, got) && i < |ws|
    ensures multiset(Expected(ws, got))[ws[i].Event()] == if Got(got, i) == R.UpTo(Parts(ws[i])) then 1 else 0
    decreases |got|
  {
    PartsExist(ws[i]);
    if |got| > 0 {
      var init, r := got[..|got| - 1], got[|got| - 1];
      assert got == init + [r];
      TrafficPrefix(ws, init, r);
      CountSoFar(own, ws, init, start, i);
      ExpectedSnoc(ws, init, r);
      GotSnoc(init, r, i);
      CountNext(own, ws, init, r, start, i);
    }
  }

  lemma CountNext(own: GuidPrefix, ws: seq<LargeWrite>, init: seq<Arrived>, r: Arrived, start: Buffers, i: nat)
    requires Writes(own, ws, start) && i < |ws| && r.write < |ws| && r.part < Parts(ws[r.write])
    requires r.part !in Got(init, r.write)
    ensures var more := RaisedBy(ws[r.write], Got(init + [r], r.write));
            multiset(more)[ws[i].Event()] == if r.write == i && Got(init + [r], i) == R.UpTo(Parts(ws[i])) then 1 else 0
    ensures r.write == i ==> Got(init, i) != R.UpTo(Parts(ws[i]))
    ensures r.write != i ==> Got(init + [r], i) == Got(init, i)
  {
    GotSnoc(init, r, i);
    if r.write != i && ws[r.write].Event() == ws[i].Event() {
      EventsTell(own, ws, start, r.write, i);
      assert false;
    }
    assert r.part in R.UpTo(Parts(ws[r.write]));
  }

  lemma {:induction false} OnlyTheirs(ws: seq<LargeWrite>, got: seq<Arrived>, e: Event)
    requires Traffic(ws, got) && e in Expected(ws, got)
    ensures exists i :: 0 <= i < |ws| && e == ws[i].Event()
    decreases |got|
  {
    var init, r := got[..|got| - 1], got[|got| - 1];
    assert got == init + [r];
    ExpectedSnoc(ws, init, r);
    if e in Expected(ws, init) {
      OnlyTheirs(ws, init, e);
    } else {
      assert e == ws[r.write].Event();
    }
  }

  /** Every datagram of every write has arrived. */
  ghost predicate Complete(ws: seq<LargeWrite>, got: seq<Arrived>) {
    forall i: nat, k: nat | i < |ws| && k < Parts(ws[i]) :: k in Got(got, i)
  }

  /** Writes with different reassembly keys, from any participants, large and small: each of their
      datagrams delivered exactly once, in any order and interleaved in any way, raises exactly one event
      for each write, with its number and octets, and no other. */
  lemma EachWriteDeliveredOnce(own: GuidPrefix, ws: seq<LargeWrite>, got: seq<Arrived>, start: Buffers)
    requires Writes(own, ws, start) && AllFit(ws) && Traffic(ws, got) && Complete(ws, got)
    ensures var r := Deliver(own, start, Datagrams(ws, got));
            && !r.panicked
            && (forall i | 0 <= i < |ws| :: multiset(r.events)[ws[i].Event()] == 1)
            && forall e <- r.events :: exists i :: 0 <= i < |ws| && e == ws[i].Event()
  {
    DeliverInterleaved(own, ws, got, start);
    forall i | 0 <= i < |ws|
      ensures multiset(Expected(ws, got))[ws[i].Event()] == 1
    {
      CountSoFar(own, ws, got, start, i);
      GotAll(ws, got, i);
    }
    forall e <- Expected(ws, got)
      ensures exists i :: 0 <= i < |ws| && e == ws[i].Event()
    {
      OnlyTheirs(ws, got, e);
    }
  }

  lemma GotAll(ws: seq<LargeWrite>, got: seq<Arrived>, i: nat)
    requires Traffic(ws, got) && Complete(ws, got) && i < |ws|
    ensures Got(got, i) == R.UpTo(Parts(ws[i]))
  {
    forall k | k in Got(got, i)
      ensures k in R.UpTo(Parts(ws[i]))
    {
      var n := GotFrom(got, i, k);
    }
  }
}
