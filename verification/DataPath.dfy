/** From `write` on one participant to dispatch on another, through the wire format. */
module DataPath {
  import opened Wrappers
  import opened Bytes
  import opened Ids
  import opened Messages
  import opened Fragments
  import opened Cdr
  import R = Reassembly

  datatype Event =
    | SampleFrom(source: Guid, sn: U64, payload: seq<byte>)
    | HeartbeatFrom(source: Guid, heartbeat: Heartbeat)
    | AckNackFrom(acknack: AckNack)

  // ---------------------------------------------------------------------------
  // Sending
  // ---------------------------------------------------------------------------

  function DataMessage(h: Header, eid: EntityId, sn: U64, wrapped: seq<byte>): seq<byte> {
    WrapInRtpsMessage(h, Frame(EncodeData(eid, ENTITYID_UNKNOWN, FromU64(sn), wrapped)))
  }

  function FragMessage(h: Header, f: DataFrag): seq<byte> {
    WrapInRtpsMessage(h, Frame(EncodeDataFrag(f)))
  }

  /** The wire messages of one write: one DATA, or one DATA_FRAG a fragment. */
  ghost predicate SentAs(h: Header, eid: EntityId, sn: U64, payload: seq<byte>, msgs: seq<seq<byte>>) {
    var wrapped := WrapPayload(payload);
    if |wrapped| <= MAX_FRAGMENT_PAYLOAD then msgs == [DataMessage(h, eid, sn, wrapped)]
    else
      && |msgs| == FragCount(|wrapped|, MAX_FRAGMENT_PAYLOAD)
      && forall k | 0 <= k < |msgs| ::
        && k * MAX_FRAGMENT_PAYLOAD < |wrapped| && k + 1 < TWO_32
        && msgs[k] == FragMessage(h, FragAt(eid, FromU64(sn), wrapped, MAX_FRAGMENT_PAYLOAD, k))
  }

  lemma FragsAreSent(h: Header, eid: EntityId, sn: U64, payload: seq<byte>, frags: seq<DataFrag>, msgs: seq<seq<byte>>)
    requires MAX_FRAGMENT_PAYLOAD < |WrapPayload(payload)| < TWO_32
    requires |msgs| == |frags| == FragCount(|WrapPayload(payload)|, MAX_FRAGMENT_PAYLOAD)
    requires forall k | 0 <= k < |frags| ::
      && k * MAX_FRAGMENT_PAYLOAD < |WrapPayload(payload)|
      && frags[k] == FragAt(eid, FromU64(sn), WrapPayload(payload), MAX_FRAGMENT_PAYLOAD, k)
    requires forall k | 0 <= k < |frags| :: msgs[k] == FragMessage(h, frags[k])
    ensures SentAs(h, eid, sn, payload, msgs)
  {
  }

  method FragMessages(h: Header, frags: seq<DataFrag>) returns (msgs: seq<seq<byte>>)
    ensures |msgs| == |frags| && forall k | 0 <= k < |frags| :: msgs[k] == FragMessage(h, frags[k])
  {
    msgs := [];
    for k := 0 to |frags|
      invariant |msgs| == k
      invariant forall j | 0 <= j < k :: msgs[j] == FragMessage(h, frags[j])
    {
      msgs := msgs + [FragMessage(h, frags[k])];
    }
  }

  method WriteMessages(h: Header, eid: EntityId, sn: U64, payload: seq<byte>) returns (msgs: seq<seq<byte>>)
    requires |payload| + 5 < TWO_32
    ensures SentAs(h, eid, sn, payload, msgs)
  {
    var wrapped := WrapPayload(payload);
    if |wrapped| > MAX_FRAGMENT_PAYLOAD {
      var frags := SplitIntoFragmentsN(eid, FromU64(sn), wrapped, MAX_FRAGMENT_PAYLOAD);
      msgs := FragMessages(h, frags);
      FragsAreSent(h, eid, sn, payload, frags, msgs);
    } else {
      msgs := [DataMessage(h, eid, sn, wrapped)];
    }
  }

  // ---------------------------------------------------------------------------
  // Receiving
  // ---------------------------------------------------------------------------

  function SampleOf(source: Guid, sn: SequenceNumber, wrapped: seq<byte>): seq<Event> {
    match UnwrapPayload(wrapped)
    case Ok(payload) => [SampleFrom(source, sn.ToU64(), payload)]
    case Err(_) => []
  }

  /** The reassembly buffers afterwards, the events raised, and whether the reassembler panicked, which
      ends the receive loop that called it. */
  datatype Outcome = Outcome(buffers: Buffers, events: seq<Event>, panicked: bool)

  function Done(buffers: Buffers, events: seq<Event>): Outcome {
    Outcome(buffers, events, false)
  }

  /** What one submessage from participant `prefix` does. */
  function HandleItem(prefix: GuidPrefix, m: Raw, buffers: Buffers, now: nat): Outcome {
    if m.id == SUBMSG_DATA then
      match DecodeData(m.flags, m.body)
      case Err(_) => Done(buffers, [])
      case Ok(ds) =>
        if ds.payload.None? then Done(buffers, [])
        else Done(buffers, SampleOf(Guid(prefix, ds.writer), ds.sn, ds.payload.value))
    else if m.id == SUBMSG_DATA_FRAG then
      match DecodeDataFrag(m.body)
      case Err(_) => Done(buffers, [])
      case Ok(f) => HandleFrag(prefix, f, buffers, now)
    else if m.id == SUBMSG_HEARTBEAT then
      match DecodeHeartbeat(m.body)
      case Err(_) => Done(buffers, [])
      case Ok(hb) => Done(buffers, [HeartbeatFrom(Guid(prefix, hb.writer), hb)])
    else if m.id == SUBMSG_ACKNACK then
      match DecodeAckNack(m.body)
      case Err(_) => Done(buffers, [])
      case Ok(an) => Done(buffers, [AckNackFrom(an)])
    else Done(buffers, [])
  }

  function HandleFrag(prefix: GuidPrefix, f: DataFrag, buffers: Buffers, now: nat): Outcome {
    var r := Received(buffers, f, now);
    Outcome(r.buffers, if r.sample.Some? then SampleOf(Guid(prefix, f.writer), f.sn, r.sample.value) else [], r.panicked)
  }

  function HandleBody(prefix: GuidPrefix, body: seq<byte>, buffers: Buffers, now: nat): Outcome
    decreases |body|
  {
    match FirstOf(body)
    case End => Done(buffers, [])
    case Overrun(_, _) => Done(buffers, [])
    case Sub(raw, rest) =>
      var first := HandleItem(prefix, raw, buffers, now);
      if first.panicked then first
      else
        var others := HandleBody(prefix, rest, first.buffers, now);
        Outcome(others.buffers, first.events + others.events, others.panicked)
  }

  function HandlePacket(own: GuidPrefix, data: seq<byte>, buffers: Buffers, now: nat): Outcome {
    match DecodeHeader(data)
    case Err(_) => Done(buffers, [])
    case Ok(h) => if h.prefix == own then Done(buffers, []) else HandleBody(h.prefix, data[HEADER_LEN..], buffers, now)
  }

  method HandleSubmessage(prefix: GuidPrefix, m: Raw, assembler: FragmentAssembler, now: nat)
    returns (events: seq<Event>, panicked: bool)
    modifies assembler
    ensures HandleItem(prefix, m, old(assembler.buffers), now) == Outcome(assembler.buffers, events, panicked)
  {
    events, panicked := [], false;
    if m.id == SUBMSG_DATA {
      var ds := DecodeData(m.flags, m.body);
      if ds.Ok? && ds.value.payload.Some? {
        events := SampleOf(Guid(prefix, ds.value.writer), ds.value.sn, ds.value.payload.value);
      }
    } else if m.id == SUBMSG_DATA_FRAG {
      var f := DecodeDataFrag(m.body);
      if f.Ok? {
        var whole;
        whole, panicked := assembler.Receive(f.value, now);
        if whole.Some? {
          events := SampleOf(Guid(prefix, f.value.writer), f.value.sn, whole.value);
        }
      }
    } else if m.id == SUBMSG_HEARTBEAT {
      var hb := DecodeHeartbeat(m.body);
      if hb.Ok? {
        events := [HeartbeatFrom(Guid(prefix, hb.value.writer), hb.value)];
      }
    } else if m.id == SUBMSG_ACKNACK {
      var an := DecodeAckNack(m.body);
      if an.Ok? {
        events := [AckNackFrom(an.value)];
      }
    }
  }

  /** What is left of handling a message: `events` so far, then those of `body`, make up `target`. */
  ghost predicate Continues(target: Outcome, prefix: GuidPrefix, body: seq<byte>, buffers: Buffers,
                            now: nat, events: seq<Event>) {
    var left := HandleBody(prefix, body, buffers, now);
    target == Outcome(left.buffers, events + left.events, left.panicked)
  }

  lemma Regroup(a: seq<Event>, b: seq<Event>, c: seq<Event>)
    ensures a + (b + c) == (a + b) + c && a + [] == a
  {
  }

  lemma ContinuesNext(target: Outcome, prefix: GuidPrefix, body: seq<byte>, buffers: Buffers,
                      now: nat, events: seq<Event>)
    requires Continues(target, prefix, body, buffers, now, events)
    ensures match FirstOf(body)
            case Sub(raw, rest) =>
              var first := HandleItem(prefix, raw, buffers, now);
              if first.panicked then target == Outcome(first.buffers, events + first.events, true)
              else Continues(target, prefix, rest, first.buffers, now, events + first.events)
            case _ => target == Done(buffers, events)
  {
    match FirstOf(body)
    case Sub(raw, rest) =>
      var first := HandleItem(prefix, raw, buffers, now);
      Regroup(events, first.events, HandleBody(prefix, rest, first.buffers, now).events);
    case _ => Regroup(events, [], []);
  }

  method HandleDataPacket(own: GuidPrefix, data: seq<byte>, assembler: FragmentAssembler, now: nat)
    returns (events: seq<Event>, panicked: bool)
    modifies assembler
    ensures HandlePacket(own, data, old(assembler.buffers), now) == Outcome(assembler.buffers, events, panicked)
  {
    var header := DecodeHeader(data);
    if header.Err? || header.value.prefix == own {
      return [], false;
    }
    var prefix := header.value.prefix;
    events := [];
    var iter := new SubmessageIter(data[HEADER_LEN..]);
    ghost var target := HandleBody(prefix, iter.body, assembler.buffers, now);
    assert events + target.events == target.events;
    while true
      invariant !iter.errored && fresh(iter)
      invariant Continues(target, prefix, iter.body, assembler.buffers, now, events)
      decreases |iter.body|
    {
      ContinuesNext(target, prefix, iter.body, assembler.buffers, now, events);
      var item := iter.Next();
      if !item.Sub? {
        break;
      }
      var more;
      more, panicked := HandleSubmessage(prefix, item.raw, assembler, now);
      events := events + more;
      if panicked {
        return;
      }
    }
    panicked := false;
  }

  /** The items of a message handled in turn, up to a panic. */
  function HandleItems(prefix: GuidPrefix, items: seq<Raw>, buffers: Buffers, now: nat): Outcome {
    if items == [] then Done(buffers, [])
    else
      var first := HandleItem(prefix, items[0], buffers, now);
      if first.panicked then first
      else
        var others := HandleItems(prefix, items[1..], first.buffers, now);
        Outcome(others.buffers, first.events + others.events, others.panicked)
  }

  /** On any octets: handling a message is handling, in order, exactly the submessages that iteration
      yields, whatever comes of each. */
  lemma {:induction false} BodyIsItems(prefix: GuidPrefix, body: seq<byte>, buffers: Buffers, now: nat)
    ensures HandleBody(prefix, body, buffers, now) == HandleItems(prefix, Parse(body).0, buffers, now)
    decreases |body|
  {
    match FirstOf(body)
    case Sub(raw, rest) =>
      var first, items := HandleItem(prefix, raw, buffers, now), Parse(rest).0;
      assert ([raw] + items)[1..] == items;
      BodyIsItems(prefix, rest, first.buffers, now);
    case _ =>
  }

  /** A datagram of well-formed submessages has each of them handled, in order. */
  lemma DatagramIsItems(h: Header, ms: seq<Raw>, own: GuidPrefix, buffers: Buffers, now: nat)
    requires WellFormed(ms) && h.prefix != own
    ensures HandlePacket(own, WrapInRtpsMessage(h, Frames(ms)), buffers, now) == HandleItems(h.prefix, ms, buffers, now)
  {
    HeaderRoundTrip(h, Frames(ms));
    BodyIsItems(h.prefix, Frames(ms), buffers, now);
    ParseFrames(ms);
  }

  /** A participant's own datagrams, and octets that are no RTPS message, do nothing. */
  lemma OwnDatagramsAreIgnored(h: Header, body: seq<byte>, junk: seq<byte>, own: GuidPrefix, buffers: Buffers, now: nat)
    ensures HandlePacket(h.prefix, WrapInRtpsMessage(h, body), buffers, now) == Done(buffers, [])
    ensures |junk| < 20 || junk[0..4] != [0x52, 0x54, 0x50, 0x53] ==> HandlePacket(own, junk, buffers, now) == Done(buffers, [])
  {
    HeaderRoundTrip(h, body);
    HeaderAcceptedIff(junk);
  }

  /** Submessages that cannot be decoded, carry nothing, or are of another kind, raise nothing. */
  lemma OthersRaiseNothing(prefix: GuidPrefix, m: Raw, buffers: Buffers, now: nat)
    ensures m.id != 0x15 && m.id != 0x16 && m.id != 0x07 && m.id != 0x06 ==>
              HandleItem(prefix, m, buffers, now) == Done(buffers, [])
    ensures m.id == 0x15 && (|m.body| <= 20 || (m.flags as int / 4) % 2 == 0) ==>
              HandleItem(prefix, m, buffers, now) == Done(buffers, [])
    ensures m.id == 0x16 && |m.body| < 32 ==> HandleItem(prefix, m, buffers, now) == Done(buffers, [])
    ensures (m.id == 0x07 || m.id == 0x06) && |m.body| < 28 ==> HandleItem(prefix, m, buffers, now) == Done(buffers, [])
  {
    if m.id == 0x15 {
      DataPayloadIff(m.flags, m.body);
    }
  }

  /** One receive loop handling datagrams in turn, each with its arrival time. */
  function Deliver(own: GuidPrefix, start: Buffers, packets: seq<(seq<byte>, nat)>): Outcome {
    if packets == [] then Done(start, [])
    else
      var before := Deliver(own, start, packets[..|packets| - 1]);
      if before.panicked then before
      else
        var last := HandlePacket(own, packets[|packets| - 1].0, before.buffers, packets[|packets| - 1].1);
        Outcome(last.buffers, before.events + last.events, last.panicked)
  }

  // ---------------------------------------------------------------------------
  // The round trip
  // ---------------------------------------------------------------------------

  lemma OneItem(h: Header, m: Raw, own: GuidPrefix, buffers: Buffers, now: nat)
    requires |m.body| < TWO_16 && h.prefix != own
    ensures HandlePacket(own, WrapInRtpsMessage(h, Frame(m)), buffers, now) == HandleItem(h.prefix, m, buffers, now)
  {
    OneSubmessage(h, m);
    var body := WrapInRtpsMessage(h, Frame(m))[HEADER_LEN..];
    var first := HandleItem(h.prefix, m, buffers, now);
    assert HandleBody(h.prefix, [], first.buffers, now) == Done(first.buffers, []);
    assert first.events + [] == first.events;
  }

  lemma DataMessageDelivers(h: Header, eid: EntityId, sn: U64, payload: seq<byte>, own: GuidPrefix, buffers: Buffers, now: nat)
    requires |WrapPayload(payload)| <= MAX_FRAGMENT_PAYLOAD && h.prefix != own
    ensures HandlePacket(own, DataMessage(h, eid, sn, WrapPayload(payload)), buffers, now)
            == Done(buffers, [SampleFrom(Guid(h.prefix, eid), sn, payload)])
  {
    var wrapped := WrapPayload(payload);
    PayloadRoundTrip(payload);
    DataRoundTrip(eid, ENTITYID_UNKNOWN, FromU64(sn), wrapped);
    SequenceNumberRoundTrip(sn, FromU64(sn));
    OneItem(h, EncodeData(eid, ENTITYID_UNKNOWN, FromU64(sn), wrapped), own, buffers, now);
  }

  lemma FragMessageReceived(h: Header, f: DataFrag, own: GuidPrefix, buffers: Buffers, now: nat)
    requires |f.payload| <= MAX_FRAGMENT_PAYLOAD && h.prefix != own
    ensures HandlePacket(own, FragMessage(h, f), buffers, now) == HandleFrag(h.prefix, f, buffers, now)
  {
    DataFragRoundTrip(f);
    OneItem(h, EncodeDataFrag(f), own, buffers, now);
  }

  /** HEARTBEAT and ACKNACK reach their handlers as sent. */
  lemma HeartbeatArrives(h: Header, hb: Heartbeat, own: GuidPrefix, buffers: Buffers, now: nat)
    requires h.prefix != own
    ensures HandlePacket(own, WrapInRtpsMessage(h, Frame(EncodeHeartbeat(hb))), buffers, now)
            == Done(buffers, [HeartbeatFrom(Guid(h.prefix, hb.writer), hb)])
  {
    HeartbeatRoundTrip(hb);
    OneItem(h, EncodeHeartbeat(hb), own, buffers, now);
  }

  lemma AckNackArrives(h: Header, an: AckNack, own: GuidPrefix, buffers: Buffers, now: nat)
    requires h.prefix != own
    ensures HandlePacket(own, WrapInRtpsMessage(h, Frame(EncodeAckNack(an))), buffers, now)
            == Done(buffers, [AckNackFrom(an)])
  {
    AckNackRoundTrip(an);
    OneItem(h, EncodeAckNack(an), own, buffers, now);
  }

  /** A GAP changes nothing: no handler consumes it. */
  lemma GapIsIgnored(h: Header, gap: Gap, own: GuidPrefix, buffers: Buffers, now: nat)
    requires h.prefix != own
    ensures HandlePacket(own, WrapInRtpsMessage(h, Frame(EncodeGap(gap))), buffers, now) == Done(buffers, [])
  {
    GapListWritten(gap);
    OneItem(h, EncodeGap(gap), own, buffers, now);
  }

  /** A write large enough to be fragmented, on its way to another participant. */
  datatype LargeWrite = LargeWrite(h: Header, eid: EntityId, sn: U64, payload: seq<byte>) {
    ghost predicate Valid() {
      MAX_FRAGMENT_PAYLOAD < |WrapPayload(payload)| <= MAX_REASSEMBLY_BYTES
    }

    function Cut(): R.Sample {
      R.Sample(eid, FromU64(sn), WrapPayload(payload), MAX_FRAGMENT_PAYLOAD)
    }

    ghost function Count(): nat {
      FragCount(|WrapPayload(payload)|, MAX_FRAGMENT_PAYLOAD)
    }

    ghost function Frag(k: nat): DataFrag
      requires Valid() && k < Count()
    {
      CountMeaning(|WrapPayload(payload)|, MAX_FRAGMENT_PAYLOAD, k);
      FragAt(eid, FromU64(sn), WrapPayload(payload), MAX_FRAGMENT_PAYLOAD, k)
    }

    ghost function Event(): Event {
      SampleFrom(Guid(h.prefix, eid), sn, payload)
    }
  }

  ghost predicate Indices(w: LargeWrite, order: seq<nat>)
    requires w.Valid()
  {
    forall i | 0 <= i < |order| :: order[i] < w.Count()
  }

  /** The datagrams received are the messages sent, each once, in some order and at some times, none
      more than the stale age after another. */
  ghost predicate Arrive(msgs: seq<seq<byte>>, order: seq<nat>, times: seq<nat>, packets: seq<(seq<byte>, nat)>) {
    && |order| == |times| == |packets| == |msgs| && Timely(times)
    && (forall i | 0 <= i < |order| :: order[i] < |msgs| && packets[i].0 == msgs[order[i]] && packets[i].1 == times[i])
    && forall k: nat | k < |msgs| :: k in order
  }

  ghost function Arrivals(w: LargeWrite, order: seq<nat>, times: seq<nat>): seq<R.Arrival>
    requires w.Valid() && |order| == |times| && Indices(w, order)
  {
    seq(|order|, i requires 0 <= i < |order| => R.Arrival(w.Frag(order[i]), times[i]))
  }

  ghost predicate Timely(times: seq<nat>) {
    forall i, j | 0 <= i < j < |times| :: times[j] - times[i] <= STALE_FRAG_AGE
  }

  ghost function SetOf(order: seq<nat>): (s: set<nat>)
    ensures forall k :: k in s <==> k in order
    ensures |s| <= |order|
  {
    if order == [] then {}
    else
      assert order == order[..|order| - 1] + [order[|order| - 1]];
      SetOf(order[..|order| - 1]) + {order[|order| - 1]}
  }

  lemma FragIsOwn(w: LargeWrite, k: nat)
    requires w.Valid() && k < w.Count()
    ensures w.Cut().Valid() && w.Cut().IsFragmentAt(w.Frag(k), k) && w.Cut().IsRun(w.Frag(k))
    ensures KeyOf(w.Frag(k)) == w.Cut().Key() && R.Numbers(w.Frag(k)) == {k}
    ensures |w.Frag(k).payload| <= MAX_FRAGMENT_PAYLOAD
  {
    CountMeaning(|WrapPayload(w.payload)|, MAX_FRAGMENT_PAYLOAD, k);
    R.OwnNeverRejected(w.Cut(), w.Frag(k), k);
  }

  lemma SeenOrder(w: LargeWrite, order: seq<nat>, times: seq<nat>)
    requires w.Valid() && |order| == |times| && Indices(w, order)
    ensures w.Cut().Valid() && R.OnlyOwn(w.Cut(), Arrivals(w, order, times))
    ensures R.Seen(w.Cut(), Arrivals(w, order, times)) == SetOf(order)
  {
    var arrivals := Arrivals(w, order, times);
    forall i | 0 <= i < |order|
      ensures KeyOf(arrivals[i].frag) == w.Cut().Key() && R.Numbers(arrivals[i].frag) == {order[i]}
      ensures w.Cut().Valid() && w.Cut().IsRun(arrivals[i].frag)
    {
      FragIsOwn(w, order[i]);
    }
    SeenOwn(w.Cut(), arrivals, order);
  }

  lemma {:induction false} SeenOwn(s: R.Sample, arrivals: seq<R.Arrival>, order: seq<nat>)
    requires |arrivals| == |order|
    requires forall i | 0 <= i < |order| :: KeyOf(arrivals[i].frag) == s.Key() && R.Numbers(arrivals[i].frag) == {order[i]}
    ensures R.Seen(s, arrivals) == SetOf(order)
    decreases |order|
  {
    if |order| > 0 {
      var n := |order| - 1;
      SeenOwn(s, arrivals[..n], order[..n]);
      Last(arrivals);
      R.SeenSnoc(s, arrivals[..n], arrivals[n]);
      SetOfLast(order);
    } else {
      assert arrivals == [] && order == [];
    }
  }

  lemma SetOfLast(order: seq<nat>)
    requires order != []
    ensures SetOf(order) == SetOf(order[..|order| - 1]) + {order[|order| - 1]}
  {
  }

  /** Handling `data` is handling fragment `k`: the sample's event is raised exactly when reassembly
      completes with it. */
  ghost predicate Carries(w: LargeWrite, own: GuidPrefix, data: seq<byte>, f: DataFrag)
    requires w.Valid()
  {
    forall buffers: Buffers, now: nat
      | Received(buffers, f, now).sample in {None, Some(WrapPayload(w.payload))}
      :: HandlePacket(own, data, buffers, now) ==
         var r := Received(buffers, f, now);
         Outcome(r.buffers, if r.sample.Some? then [w.Event()] else [], r.panicked)
  }

  lemma FragCarries(w: LargeWrite, k: nat, own: GuidPrefix)
    requires w.Valid() && k < w.Count() && w.h.prefix != own
    ensures Carries(w, own, FragMessage(w.h, w.Frag(k)), w.Frag(k))
  {
    var f := w.Frag(k);
    forall buffers: Buffers, now: nat
      | Received(buffers, f, now).sample in {None, Some(WrapPayload(w.payload))}
      ensures HandlePacket(own, FragMessage(w.h, f), buffers, now) ==
              var r := Received(buffers, f, now);
              Outcome(r.buffers, if r.sample.Some? then [w.Event()] else [], r.panicked)
    {
      FragIsOwn(w, k);
      FragMessageReceived(w.h, f, own, buffers, now);
      PayloadRoundTrip(w.payload);
      SequenceNumberRoundTrip(w.sn, FromU64(w.sn));
    }
  }

  /** Datagram `i` carries fragment `order[i]` and arrives at `times[i]`. */
  ghost predicate Carry(w: LargeWrite, own: GuidPrefix, packets: seq<(seq<byte>, nat)>, order: seq<nat>, times: seq<nat>)
    requires w.Valid() && |order| == |times| && Indices(w, order)
  {
    && |packets| == |order|
    && forall i | 0 <= i < |order| :: packets[i].1 == times[i] && Carries(w, own, packets[i].0, w.Frag(order[i]))
  }

  /** After the messages the buffers are those of reassembly, and the sample's event was raised iff every
      fragment is in. */
  ghost predicate Delivered(w: LargeWrite, own: GuidPrefix, start: Buffers, packets: seq<(seq<byte>, nat)>,
                            order: seq<nat>, times: seq<nat>)
    requires w.Valid() && w.Cut().Valid() && |order| == |times| && Indices(w, order)
  {
    var run := R.Run(start, Arrivals(w, order, times));
    Deliver(own, start, packets) == Done(run.buffers, Raised(w, SetOf(order)))
  }

  ghost function Raised(w: LargeWrite, seen: set<nat>): seq<Event>
    requires w.Valid() && w.Cut().Valid()
  {
    if seen == w.Cut().All() then [w.Event()] else []
  }

  lemma Snoc(w: LargeWrite, order: seq<nat>, times: seq<nat>, k: nat, t: nat)
    requires w.Valid() && |order| == |times| && Indices(w, order) && k < w.Count()
    ensures Indices(w, order + [k])
    ensures Arrivals(w, order + [k], times + [t]) == Arrivals(w, order, times) + [R.Arrival(w.Frag(k), t)]
  {
  }

  lemma TimelyIsNoneStale(w: LargeWrite, order: seq<nat>, times: seq<nat>)
    requires w.Valid() && w.Cut().Valid() && |order| == |times| && Indices(w, order) && Timely(times)
    ensures R.NoneStale(w.Cut(), Arrivals(w, order, times))
  {
  }

  lemma ReassembleNext(w: LargeWrite, start: Buffers, order: seq<nat>, times: seq<nat>, k: nat, t: nat)
    requires w.Valid() && w.Cut().Valid() && w.Cut().Key() !in start
    requires |order| == |times| && Timely(times + [t]) && Indices(w, order) && k < w.Count()
    requires SetOf(order) != w.Cut().All()
    ensures var next := Received(R.Run(start, Arrivals(w, order, times)).buffers, w.Frag(k), t);
            && !next.panicked && Indices(w, order + [k])
            && R.Run(start, Arrivals(w, order + [k], times + [t])) == next
            && next.sample == if SetOf(order + [k]) == w.Cut().All() then Some(WrapPayload(w.payload)) else None
  {
    var arrivals, a := Arrivals(w, order, times), R.Arrival(w.Frag(k), t);
    Snoc(w, order, times, k, t);
    SeenOrder(w, order, times);
    SeenOrder(w, order + [k], times + [t]);
    TimelyIsNoneStale(w, order + [k], times + [t]);
    FragIsOwn(w, k);
    R.ReassemblyInvertsSplitting(w.Cut(), start, arrivals, a);
    R.RunSnoc(start, arrivals, a);
  }

  /** Handling a datagram that carries fragment `f` when reassembly does not panic. */
  lemma CarriedIsHandled(w: LargeWrite, own: GuidPrefix, data: seq<byte>, f: DataFrag, before: Buffers, t: nat, done: bool)
    requires w.Valid() && Carries(w, own, data, f) && !Received(before, f, t).panicked
    requires Received(before, f, t).sample == if done then Some(WrapPayload(w.payload)) else None
    ensures HandlePacket(own, data, before, t) == Done(Received(before, f, t).buffers, if done then [w.Event()] else [])
  {
  }

  lemma DeliverNext(w: LargeWrite, own: GuidPrefix, start: Buffers, packets: seq<(seq<byte>, nat)>,
                    order: seq<nat>, times: seq<nat>, data: seq<byte>, k: nat, t: nat)
    requires w.Valid() && w.Cut().Valid() && w.Cut().Key() !in start
    requires |order| == |times| && Timely(times + [t]) && Indices(w, order) && k < w.Count()
    requires SetOf(order) != w.Cut().All() && Delivered(w, own, start, packets, order, times)
    requires Carries(w, own, data, w.Frag(k))
    ensures Indices(w, order + [k])
    ensures Delivered(w, own, start, packets + [(data, t)], order + [k], times + [t])
  {
    ReassembleNext(w, start, order, times, k, t);
    var before := R.Run(start, Arrivals(w, order, times)).buffers;
    var next, raised := Received(before, w.Frag(k), t), Raised(w, SetOf(order + [k]));
    CarriedIsHandled(w, own, data, w.Frag(k), before, t, SetOf(order + [k]) == w.Cut().All());
    DeliverSnoc(own, start, packets, data, t, before, Raised(w, SetOf(order)), next.buffers, raised);
    assert [] + raised == raised;
  }

  lemma DeliverSnoc(own: GuidPrefix, start: Buffers, packets: seq<(seq<byte>, nat)>, data: seq<byte>, t: nat,
                    before: Buffers, events: seq<Event>, after: Buffers, more: seq<Event>)
    requires Deliver(own, start, packets) == Done(before, events)
    requires HandlePacket(own, data, before, t) == Done(after, more)
    ensures Deliver(own, start, packets + [(data, t)]) == Done(after, events + more)
  {
    assert (packets + [(data, t)])[..|packets|] == packets;
  }

  /** Fewer messages than fragments leave some fragment out. */
  lemma FewerMiss(w: LargeWrite, order: seq<nat>)
    requires w.Valid() && w.Cut().Valid() && |order| < w.Count()
    ensures SetOf(order) != w.Cut().All()
  {
    R.RangeSize(w.Cut().All(), w.Count());
  }

  lemma DeliverNone(w: LargeWrite, own: GuidPrefix, start: Buffers)
    requires w.Valid() && w.Cut().Valid()
    ensures Delivered(w, own, start, [], [], [])
  {
    CountMeaning(|WrapPayload(w.payload)|, MAX_FRAGMENT_PAYLOAD, 0);
    assert 0 in w.Cut().All();
  }

  /** While the messages arrive, nothing is raised until the last distinct fragment is in. */
  lemma {:induction false} DeliverUpTo(w: LargeWrite, own: GuidPrefix, start: Buffers, packets: seq<(seq<byte>, nat)>,
                                       order: seq<nat>, times: seq<nat>)
    requires w.Valid() && w.Cut().Valid() && w.Cut().Key() !in start
    requires |order| == |times| <= w.Count() && Timely(times) && Indices(w, order)
    requires Carry(w, own, packets, order, times)
    ensures Delivered(w, own, start, packets, order, times)
    decreases |order|
  {
    if |order| == 0 {
      DeliverNone(w, own, start);
      assert order == [] && times == [] && packets == [];
    } else {
      var n := |order| - 1;
      FewerMiss(w, order[..n]);
      DeliverUpTo(w, own, start, packets[..n], order[..n], times[..n]);
      Last(order);
      Last(times);
      Last(packets);
      DeliverNext(w, own, start, packets[..n], order[..n], times[..n], packets[n].0, order[n], times[n]);
    }
  }

  lemma Last<T>(s: seq<T>)
    requires s != []
    ensures s == s[..|s| - 1] + [s[|s| - 1]]
  {
  }

  lemma PacketsCarry(w: LargeWrite, own: GuidPrefix, msgs: seq<seq<byte>>, order: seq<nat>, times: seq<nat>,
                     packets: seq<(seq<byte>, nat)>)
    requires w.Valid() && w.h.prefix != own
    requires SentAs(w.h, w.eid, w.sn, w.payload, msgs) && Arrive(msgs, order, times, packets)
    ensures |msgs| == w.Count() && Indices(w, order) && Carry(w, own, packets, order, times)
  {
    forall i | 0 <= i < |order|
      ensures order[i] < w.Count() && Carries(w, own, packets[i].0, w.Frag(order[i]))
    {
      assert packets[i].0 == msgs[order[i]];
      FragCarries(w, order[i], own);
    }
  }

  lemma LargeWriteDelivers(w: LargeWrite, own: GuidPrefix, start: Buffers, msgs: seq<seq<byte>>,
                           order: seq<nat>, times: seq<nat>, packets: seq<(seq<byte>, nat)>)
    requires w.Valid() && w.h.prefix != own && w.Cut().Key() !in start
    requires SentAs(w.h, w.eid, w.sn, w.payload, msgs) && Arrive(msgs, order, times, packets)
    ensures !Deliver(own, start, packets).panicked && Deliver(own, start, packets).events == [w.Event()]
  {
    CountMeaning(|WrapPayload(w.payload)|, MAX_FRAGMENT_PAYLOAD, 0);
    FragIsOwn(w, 0);
    PacketsCarry(w, own, msgs, order, times, packets);
    assert SetOf(order) == w.Cut().All();
    DeliverUpTo(w, own, start, packets, order, times);
  }

  lemma SmallWriteDelivers(h: Header, eid: EntityId, sn: U64, payload: seq<byte>, own: GuidPrefix, start: Buffers,
                           data: seq<byte>, t: nat)
    requires h.prefix != own && |WrapPayload(payload)| <= MAX_FRAGMENT_PAYLOAD
    requires data == DataMessage(h, eid, sn, WrapPayload(payload))
    ensures Deliver(own, start, [(data, t)]) == Done(start, [SampleFrom(Guid(h.prefix, eid), sn, payload)])
  {
    DataMessageDelivers(h, eid, sn, payload, own, start, t);
    DeliverSnoc(own, start, [], data, t, start, [], start, [SampleFrom(Guid(h.prefix, eid), sn, payload)]);
    assert [] + [(data, t)] == [(data, t)];
    assert [] + [SampleFrom(Guid(h.prefix, eid), sn, payload)] == [SampleFrom(Guid(h.prefix, eid), sn, payload)];
  }

  /** One datagram up to 1196 octets of payload, and then one for every 1200 octets begun. */
  lemma MessageCount(h: Header, eid: EntityId, sn: U64, payload: seq<byte>, msgs: seq<seq<byte>>)
    requires SentAs(h, eid, sn, payload, msgs)
    ensures |msgs| == if |payload| <= 1196 then 1 else (|payload| + 4 + 1199) / 1200
  {
    PayloadRoundTrip(payload);
  }

  /** The wire messages of one write, each delivered once to another participant in any order, raise
      exactly one event: the sample with its number and octets. This holds on both sides of the switch
      to fragments, for every payload that reassembly admits, unless the reassembly key is taken. */
  lemma WriteDelivers(h: Header, eid: EntityId, sn: U64, payload: seq<byte>, own: GuidPrefix, start: Buffers,
                      msgs: seq<seq<byte>>, order: seq<nat>, times: seq<nat>, packets: seq<(seq<byte>, nat)>)
    requires h.prefix != own && FragKey(eid, FromU64(sn).low) !in start
    requires |payload| + 4 <= 16 * 1024 * 1024
    requires SentAs(h, eid, sn, payload, msgs) && Arrive(msgs, order, times, packets)
    ensures !Deliver(own, start, packets).panicked
    ensures Deliver(own, start, packets).events == [SampleFrom(Guid(h.prefix, eid), sn, payload)]
  {
    PayloadRoundTrip(payload);
    if |WrapPayload(payload)| <= MAX_FRAGMENT_PAYLOAD {
      assert packets == [(msgs[0], times[0])];
      SmallWriteDelivers(h, eid, sn, payload, own, start, msgs[0], times[0]);
    } else {
      LargeWriteDelivers(LargeWrite(h, eid, sn, payload), own, start, msgs, order, times, packets);
    }
  }
}
