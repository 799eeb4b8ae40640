/** SEDP announcements: what one participant announces about an endpoint, a peer stores unchanged. */
module Announcements {
  import opened Wrappers
  import opened Bytes
  import opened Ids
  import opened Messages
  import opened Cdr

  const PID_TOPIC_NAME: U16 := 0x0005
  const PID_TYPE_NAME: U16 := 0x0007
  const PID_DEFAULT_UNICAST_LOCATOR: U16 := 0x002F
  const PID_ENDPOINT_GUID: U16 := 0x005A

  // "CDR_BLOB"
  const ENDPOINT_TYPE_NAME: seq<byte> := [0x43, 0x44, 0x52, 0x5F, 0x42, 0x4C, 0x4F, 0x42]

  type Address = s: seq<byte> | |s| == 16 witness [0, 0, 0, 0, 0, 0, 0, 0, 0, 0, 0, 0, 0, 0, 0, 0]

  datatype Locator = Locator(kind: I32, port: U32, address: Address)

  const LOCATOR_KIND_INVALID: I32 := -1
  const LOCATOR_KIND_UDPV4: I32 := 1
  const LOCATOR_KIND_UDPV6: I32 := 2
  const NO_ADDRESS: Address := [0, 0, 0, 0, 0, 0, 0, 0, 0, 0, 0, 0, 0, 0, 0, 0]
  const NO_LOCATOR := Locator(LOCATOR_KIND_INVALID, 0, NO_ADDRESS)

  type Octets4 = s: seq<byte> | |s| == 4 witness [0, 0, 0, 0]

  datatype SocketAddr = V4(ip4: Octets4) | V6(ip6: Address)

  datatype EndpointInfo = EndpointInfo(guid: Guid, topic: seq<byte>, isWriter: bool)

  // ---------------------------------------------------------------------------
  // Values
  // ---------------------------------------------------------------------------

  function EncodeGuid(g: Guid): seq<byte> {
    g.prefix + g.entity
  }

  function DecodeGuid(b: seq<byte>): Option<Guid> {
    if |b| < 16 then None else Some(Guid(b[..12], b[12..16]))
  }

  function EncodeLocator(l: Locator): seq<byte> {
    Le(AsU32(l.kind), 4) + Le(l.port, 4) + l.address
  }

  function DecodeLocator(b: seq<byte>): Option<Locator> {
    if |b| < 24 then None else Some(Locator(AsI32(U32At(b, 0)), U32At(b, 4), b[8..24]))
  }

  lemma GuidRoundTrip(g: Guid)
    ensures DecodeGuid(EncodeGuid(g)) == Some(g)
  {
    var b := EncodeGuid(g);
    assert b[..12] == g.prefix && b[12..16] == g.entity;
  }

  lemma LocatorRoundTrip(l: Locator)
    ensures DecodeLocator(EncodeLocator(l)) == Some(l)
  {
    var b := EncodeLocator(l);
    assert b[0..4] == Le(AsU32(l.kind), 4) && b[4..8] == Le(l.port, 4) && b[8..24] == l.address;
    U32Written(b, 0, AsU32(l.kind));
    U32Written(b, 4, l.port);
  }

  /** A locator announced without an address takes the sender's, if the families agree. */
  function FillInZeroAddress(l: Locator, from: SocketAddr): Locator {
    if l.address != NO_ADDRESS then l
    else
      match from
      case V4(ip) => if l.kind == LOCATOR_KIND_UDPV4 then l.(address := l.address[..12] + ip) else l
      case V6(ip) => if l.kind == LOCATOR_KIND_UDPV6 then l.(address := ip) else l
  }

  // ---------------------------------------------------------------------------
  // Building and reading an announcement
  // ---------------------------------------------------------------------------

  function OwnLocator(ipv6: bool, port: U16): Locator {
    Locator(if ipv6 then LOCATOR_KIND_UDPV6 else LOCATOR_KIND_UDPV4, port, NO_ADDRESS)
  }

  function EndpointParams(ipv6: bool, port: U16, info: EndpointInfo): seq<Param> {
    [Param(PID_ENDPOINT_GUID, EncodeGuid(info.guid)),
     Param(PID_TOPIC_NAME, StringValue(info.topic)),
     Param(PID_TYPE_NAME, StringValue(ENDPOINT_TYPE_NAME)),
     Param(PID_DEFAULT_UNICAST_LOCATOR, EncodeLocator(OwnLocator(ipv6, port)))]
  }

  method BuildEndpointData(ipv6: bool, port: U16, info: EndpointInfo) returns (b: seq<byte>)
    ensures b == EncodeList(EndpointParams(ipv6, port, info))
    ensures b == EncodeList([
      Param(0x5A, info.guid.prefix + info.guid.entity),
      Param(0x05, Le((|info.topic| + 1) % TWO_32, 4) + info.topic + [0]),
      Param(0x07, Le(9, 4) + [0x43, 0x44, 0x52, 0x5F, 0x42, 0x4C, 0x4F, 0x42] + [0]),
      Param(0x2F, Le(if ipv6 then 2 else 1, 4) + Le(port, 4) + Zeros(16))])
  {
    assert NO_ADDRESS == Zeros(16);
    var enc := new PlCdrEncoder();
    enc.AddParam(PID_ENDPOINT_GUID, EncodeGuid(info.guid));
    enc.AddParam(PID_TOPIC_NAME, StringValue(info.topic));
    enc.AddParam(PID_TYPE_NAME, StringValue(ENDPOINT_TYPE_NAME));
    enc.AddParam(PID_DEFAULT_UNICAST_LOCATOR, EncodeLocator(OwnLocator(ipv6, port)));
    assert enc.Params == EndpointParams(ipv6, port, info);
    b := enc.Finish();
  }

  datatype Announced = Announced(info: EndpointInfo, locator: Locator)

  function Absorb(a: Announced, p: Param, from: SocketAddr): Announced {
    if p.pid == PID_ENDPOINT_GUID then
      match DecodeGuid(p.value) case Some(g) => a.(info := a.info.(guid := g)) case None => a
    else if p.pid == PID_TOPIC_NAME then
      match DecodeString(p.value) case Ok(t) => a.(info := a.info.(topic := t)) case Err(_) => a
    else if p.pid == PID_DEFAULT_UNICAST_LOCATOR then
      match DecodeLocator(p.value) case Some(l) => a.(locator := FillInZeroAddress(l, from)) case None => a
    else a
  }

  function AbsorbAll(a: Announced, ps: seq<Param>, from: SocketAddr): Announced
    decreases |ps|
  {
    if ps == [] then a else AbsorbAll(Absorb(a, ps[0], from), ps[1..], from)
  }

  /** What a peer stores for one announcement payload; nothing when it names no topic. */
  function ReadAnnouncement(prefix: GuidPrefix, payload: seq<byte>, isWriter: bool, from: SocketAddr): Option<Announced> {
    match DecodeList(payload)
    case Err(_) => None
    case Ok(ps) =>
      var blank := Announced(EndpointInfo(Guid(prefix, ENTITYID_UNKNOWN), [], isWriter), NO_LOCATOR);
      var a := AbsorbAll(blank, ps, from);
      if a.info.topic == [] then None else Some(a)
  }

  method HandleEndpointAnnounce(prefix: GuidPrefix, payload: seq<byte>, isWriter: bool, from: SocketAddr)
    returns (r: Option<Announced>)
    ensures r == ReadAnnouncement(prefix, payload, isWriter, from)
  {
    if |payload| < 4 || U16At(payload, 0) != PL_CDR_LE {
      return None;
    }
    var decoder := new PlCdrDecoder(payload);
    var a := Announced(EndpointInfo(Guid(prefix, ENTITYID_UNKNOWN), [], isWriter), NO_LOCATOR);
    ghost var target := AbsorbAll(a, DecodeFrom(payload, 4), from);
    while true
      invariant AbsorbAll(a, DecodeFrom(payload, decoder.pos), from) == target
      decreases |payload| - decoder.pos
    {
      NextParamAdvances(payload, decoder.pos);
      ghost var ps := DecodeFrom(payload, decoder.pos);
      var p := decoder.Next();
      if p.None? {
        break;
      }
      assert ps[1..] == DecodeFrom(payload, decoder.pos);
      a := Absorb(a, p.value, from);
    }
    if a.info.topic == [] {
      return None;
    }
    return Some(a);
  }

  /** The announcements a peer stores from one datagram. */
  function StoredFrom(prefix: GuidPrefix, items: seq<Raw>, from: SocketAddr): seq<Announced> {
    if items == [] then [] else StoredOne(prefix, items[0], from) + StoredFrom(prefix, items[1..], from)
  }

  function StoredOne(prefix: GuidPrefix, raw: Raw, from: SocketAddr): seq<Announced> {
    if raw.id != SUBMSG_DATA then []
    else
      match DecodeData(raw.flags, raw.body)
      case Err(_) => []
      case Ok(ds) =>
        if ds.payload.None? then []
        else if ds.writer == ENTITYID_SEDP_PUB_WRITER then ToSeq(ReadAnnouncement(prefix, ds.payload.value, true, from))
        else if ds.writer == ENTITYID_SEDP_SUB_WRITER then ToSeq(ReadAnnouncement(prefix, ds.payload.value, false, from))
        else []
  }

  function ToSeq<T>(o: Option<T>): seq<T> {
    match o case None => [] case Some(t) => [t]
  }

  function HandlePacket(own: GuidPrefix, data: seq<byte>, from: SocketAddr): seq<Announced> {
    match DecodeHeader(data)
    case Err(_) => []
    case Ok(h) => if h.prefix == own then [] else StoredFrom(h.prefix, Parse(data[HEADER_LEN..]).0, from)
  }

  /** The datagram that announces a writer or a reader. */
  function AnnouncementMessage(h: Header, sn: SequenceNumber, ipv6: bool, port: U16, info: EndpointInfo): seq<byte> {
    WrapInRtpsMessage(h, Frame(AnnouncementData(sn, ipv6, port, info)))
  }

  function AnnouncementData(sn: SequenceNumber, ipv6: bool, port: U16, info: EndpointInfo): Raw {
    EncodeData(if info.isWriter then ENTITYID_SEDP_PUB_WRITER else ENTITYID_SEDP_SUB_WRITER,
               if info.isWriter then ENTITYID_SEDP_PUB_READER else ENTITYID_SEDP_SUB_READER,
               sn, EncodeList(EndpointParams(ipv6, port, info)))
  }

  /** Parameters other than the three read, and values that cannot be read, change nothing. */
  lemma OthersAreIgnored(a: Announced, p: Param, from: SocketAddr)
    ensures p.pid != 0x5A && p.pid != 0x05 && p.pid != 0x2F ==> Absorb(a, p, from) == a
    ensures p.pid == 0x5A && |p.value| < 16 ==> Absorb(a, p, from) == a
    ensures p.pid == 0x05 && |p.value| < 4 ==> Absorb(a, p, from) == a
    ensures p.pid == 0x2F && |p.value| < 24 ==> Absorb(a, p, from) == a
  {
  }

  /** Each submessage of a datagram is stored from on its own, in order. */
  lemma {:induction false} StoredFromAll(prefix: GuidPrefix, a: seq<Raw>, b: seq<Raw>, from: SocketAddr)
    ensures StoredFrom(prefix, a + b, from) == StoredFrom(prefix, a, from) + StoredFrom(prefix, b, from)
  {
    if a == [] {
      assert a + b == b;
    } else {
      assert (a + b)[1..] == a[1..] + b;
      StoredFromAll(prefix, a[1..], b, from);
    }
  }

  /** Submessages that are no DATA, or come from another writer than the two of discovery, store nothing. */
  lemma OthersStoreNothing(prefix: GuidPrefix, m: Raw, from: SocketAddr)
    ensures m.id != 0x15 || |m.body| <= 20 ==> StoredOne(prefix, m, from) == []
    ensures |m.body| > 20 && m.body[8..12] != [0, 0, 3, 0xC2] && m.body[8..12] != [0, 0, 4, 0xC2] ==>
              StoredOne(prefix, m, from) == []
  {
  }

  /** Without parameters, so without a topic, nothing is stored. */
  lemma NoTopicNothingStored(prefix: GuidPrefix, isWriter: bool, from: SocketAddr)
    ensures ReadAnnouncement(prefix, EncodeList([]), isWriter, from) == None
  {
    assert EncodeList([]) + [] == EncodeList([]);
    ListRoundTrip([], []);
  }

  lemma AbsorbTopic(a: Announced, topic: seq<byte>, from: SocketAddr)
    requires |topic| + 1 < TWO_32
    ensures Absorb(a, Pad(Param(0x05, StringValue(topic))), from) == a.(info := a.info.(topic := topic))
  {
    StringRoundTrip(topic, Zeros(Padded(|topic| + 5) - (|topic| + 5)));
  }

  lemma AbsorbOne(a: Announced, p: Param, from: SocketAddr)
    ensures AbsorbAll(a, PadAll([p]), from) == Absorb(a, Pad(p), from)
  {
    assert [p] + [] == [p];
    AbsorbCons(a, p, [], from);
  }

  /** The topic is all that is needed: what is not announced is the sender's prefix with no entity, and no
      locator. An empty topic is none. */
  lemma TopicAloneIsEnough(prefix: GuidPrefix, topic: seq<byte>, isWriter: bool, from: SocketAddr)
    requires Padded(|topic| + 5) < TWO_16
    ensures ReadAnnouncement(prefix, EncodeList([Param(0x05, StringValue(topic))]), isWriter, from)
            == if topic == [] then None
               else Some(Announced(EndpointInfo(Guid(prefix, [0, 0, 0, 0]), topic, isWriter), Locator(-1, 0, NO_ADDRESS)))
  {
    var p := Param(0x05, StringValue(topic));
    assert EncodeList([p]) + [] == EncodeList([p]);
    ListRoundTrip([p], []);
    var blank := Announced(EndpointInfo(Guid(prefix, ENTITYID_UNKNOWN), [], isWriter), NO_LOCATOR);
    AbsorbOne(blank, p, from);
    AbsorbTopic(blank, topic, from);
  }

  /** Nothing is stored of a participant's own announcements. */
  lemma OwnAnnouncementsAreIgnored(h: Header, body: seq<byte>, from: SocketAddr)
    ensures HandlePacket(h.prefix, WrapInRtpsMessage(h, body), from) == []
  {
    HeaderRoundTrip(h, body);
  }

  // ---------------------------------------------------------------------------
  // The round trip
  // ---------------------------------------------------------------------------

  lemma ParamSizes(ipv6: bool, port: U16, info: EndpointInfo)
    ensures |EncodeList(EndpointParams(ipv6, port, info))| == 80 + Padded(|info.topic| + 5)
    ensures forall p <- EndpointParams(ipv6, port, info) :: p.pid != PID_PAD && p.pid != PID_SENTINEL
  {
    var ps := EndpointParams(ipv6, port, info);
    assert ps[1..][1..] == ps[2..] && ps[2..][1..] == ps[3..] && ps[3..][1..] == [];
    assert |EncodeParam(ps[0])| == 20;
    assert |EncodeParam(ps[1])| == 4 + Padded(|info.topic| + 5);
    assert |EncodeParam(ps[2])| == 20;
    assert |EncodeParam(ps[3])| == 28;
    assert EncodeParams(ps[3..]) == EncodeParam(ps[3]) + EncodeParams([]);
    assert EncodeParams(ps[2..]) == EncodeParam(ps[2]) + EncodeParams(ps[3..]);
    assert EncodeParams(ps[1..]) == EncodeParam(ps[1]) + EncodeParams(ps[2..]);
    assert EncodeParams(ps) == EncodeParam(ps[0]) + EncodeParams(ps[1..]);
    assert |PL_HEADER| == 4 && |PL_END| == 4;
  }

  lemma AbsorbCons(a: Announced, p: Param, ps: seq<Param>, from: SocketAddr)
    ensures AbsorbAll(a, PadAll([p] + ps), from) == AbsorbAll(Absorb(a, Pad(p), from), PadAll(ps), from)
  {
    assert ([p] + ps)[1..] == ps;
    assert PadAll([p] + ps)[1..] == PadAll(ps);
  }

  lemma AbsorbFour(a: Announced, p0: Param, p1: Param, p2: Param, p3: Param, from: SocketAddr)
    ensures AbsorbAll(a, PadAll([p0, p1, p2, p3]), from) ==
            Absorb(Absorb(Absorb(Absorb(a, Pad(p0), from), Pad(p1), from), Pad(p2), from), Pad(p3), from)
  {
    var a1 := Absorb(a, Pad(p0), from);
    var a2 := Absorb(a1, Pad(p1), from);
    var a3 := Absorb(a2, Pad(p2), from);
    assert [p0, p1, p2, p3] == [p0] + [p1, p2, p3] && [p1, p2, p3] == [p1] + [p2, p3] && [p2, p3] == [p2] + [p3];
    assert [p3] == [p3] + [];
    AbsorbCons(a, p0, [p1, p2, p3], from);
    AbsorbCons(a1, p1, [p2, p3], from);
    AbsorbCons(a2, p2, [p3], from);
    AbsorbCons(a3, p3, [], from);
  }

  function Pad(p: Param): Param {
    Param(p.pid, PadValue(p.value))
  }

  lemma ReadBack(prefix: GuidPrefix, ipv6: bool, port: U16, info: EndpointInfo, from: SocketAddr)
    requires info.topic != [] && Padded(|info.topic| + 5) < TWO_16
    ensures ReadAnnouncement(prefix, EncodeList(EndpointParams(ipv6, port, info)), info.isWriter, from)
            == Some(Announced(info, FillInZeroAddress(OwnLocator(ipv6, port), from)))
  {
    var ps := EndpointParams(ipv6, port, info);
    EndpointEncodable(ipv6, port, info);
    ListRoundTrip(ps, []);
    assert EncodeList(ps) + [] == EncodeList(ps);
    var blank := Announced(EndpointInfo(Guid(prefix, ENTITYID_UNKNOWN), [], info.isWriter), NO_LOCATOR);
    AbsorbFour(blank, ps[0], ps[1], ps[2], ps[3], from);
    AbsorbEndpoint(blank, ipv6, port, info, from);
  }

  lemma EndpointEncodable(ipv6: bool, port: U16, info: EndpointInfo)
    requires Padded(|info.topic| + 5) < TWO_16
    ensures Encodable(EndpointParams(ipv6, port, info))
  {
    var ps := EndpointParams(ipv6, port, info);
    assert |ps[0].value| == 16 && |ps[1].value| == |info.topic| + 5 && |ps[2].value| == 13 && |ps[3].value| == 24;
  }

  lemma AbsorbEndpoint(a: Announced, ipv6: bool, port: U16, info: EndpointInfo, from: SocketAddr)
    requires |info.topic| + 5 < TWO_16
    ensures var ps := EndpointParams(ipv6, port, info);
            Absorb(Absorb(Absorb(Absorb(a, Pad(ps[0]), from), Pad(ps[1]), from), Pad(ps[2]), from), Pad(ps[3]), from)
            == Announced(EndpointInfo(info.guid, info.topic, a.info.isWriter), FillInZeroAddress(OwnLocator(ipv6, port), from))
  {
    GuidRoundTrip(info.guid);
    assert PadValue(EncodeGuid(info.guid)) == EncodeGuid(info.guid);
    StringRoundTrip(info.topic, Zeros(Padded(|info.topic| + 5) - (|info.topic| + 5)));
    var loc := OwnLocator(ipv6, port);
    LocatorRoundTrip(loc);
    assert PadValue(EncodeLocator(loc)) == EncodeLocator(loc);
  }

  /** Any endpoint with a non-empty topic whose announcement fits a submessage is stored by the peer
      with the same identity and topic, the announced port, and the sender's address. The bound is one
      octet beyond 16 bits: a body of exactly 65536 octets wraps to the length that means "to the end". */
  lemma AnnouncementRoundTrip(
    h: Header, own: GuidPrefix, sn: SequenceNumber, ipv6: bool, port: U16, info: EndpointInfo, from: SocketAddr)
    requires h.prefix != own && info.topic != []
    requires 100 + Padded(|info.topic| + 5) <= TWO_16
    ensures HandlePacket(own, AnnouncementMessage(h, sn, ipv6, port, info), from)
            == [Announced(info, FillInZeroAddress(OwnLocator(ipv6, port), from))]
  {
    var m := AnnouncementData(sn, ipv6, port, info);
    AnnouncementSize(sn, ipv6, port, info);
    OneSubmessage(h, m);
    StoredBack(h.prefix, sn, ipv6, port, info, from);
    assert [m][1..] == [] && StoredFrom(h.prefix, [], from) == [];
  }

  lemma AnnouncementSize(sn: SequenceNumber, ipv6: bool, port: U16, info: EndpointInfo)
    ensures var m := AnnouncementData(sn, ipv6, port, info);
            |m.body| == 100 + Padded(|info.topic| + 5) && !MayBeEmpty(m.id)
  {
    ParamSizes(ipv6, port, info);
  }

  lemma StoredBack(prefix: GuidPrefix, sn: SequenceNumber, ipv6: bool, port: U16, info: EndpointInfo, from: SocketAddr)
    requires info.topic != [] && Padded(|info.topic| + 5) < TWO_16
    ensures StoredOne(prefix, AnnouncementData(sn, ipv6, port, info), from)
            == [Announced(info, FillInZeroAddress(OwnLocator(ipv6, port), from))]
  {
    ParamSizes(ipv6, port, info);
    DataRoundTrip(if info.isWriter then ENTITYID_SEDP_PUB_WRITER else ENTITYID_SEDP_SUB_WRITER,
                  if info.isWriter then ENTITYID_SEDP_PUB_READER else ENTITYID_SEDP_SUB_READER,
                  sn, EncodeList(EndpointParams(ipv6, port, info)));
    ReadBack(prefix, ipv6, port, info, from);
  }

  /** The port survives and, when the sender's address family is the announced one, so does a usable address. */
  lemma StoredLocator(ipv6: bool, port: U16, from: SocketAddr)
    ensures var l := FillInZeroAddress(OwnLocator(ipv6, port), from);
            && l.port == port
            && (!ipv6 && from.V4? ==> l.kind == LOCATOR_KIND_UDPV4 && l.address[12..] == from.ip4)
            && (ipv6 && from.V6? ==> l.kind == LOCATOR_KIND_UDPV6 && l.address == from.ip6)
            && (ipv6 == from.V4? ==> l.address == NO_ADDRESS)
  {
  }

  /** An announced address is never replaced; a missing one becomes the sender's exactly when the families
      agree: an IPv4 address in the last four octets, an IPv6 address in all sixteen. */
  lemma FillInMeaning(l: Locator, from: SocketAddr)
    ensures var filled := FillInZeroAddress(l, from);
            && filled.kind == l.kind && filled.port == l.port
            && (l.address != Zeros(16) ==> filled == l)
            && (l.address == Zeros(16) && from.V4? && l.kind == 1 ==> filled.address == Zeros(12) + from.ip4)
            && (l.address == Zeros(16) && from.V6? && l.kind == 2 ==> filled.address == from.ip6)
            && (l.kind != (if from.V4? then 1 else 2) ==> filled == l)
  {
    assert NO_ADDRESS == Zeros(16) && NO_ADDRESS[..12] == Zeros(12);
  }
}
