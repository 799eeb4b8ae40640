/** RTPS message framing and the submessage codecs (sections 9.4.1 to 9.4.5 of RTPS 2.3). */
module Messages {
  import opened Wrappers
  import opened Bytes
  import opened Ids
  import opened Fragments
  import opened RecvTrackers

  datatype DecodeError = Truncated(expected: nat, got: nat) | BadMagic | InvalidCdrScheme(scheme: U16)

  const SUBMSG_PAD: byte := 0x01
  const SUBMSG_ACKNACK: byte := 0x06
  const SUBMSG_HEARTBEAT: byte := 0x07
  const SUBMSG_GAP: byte := 0x08
  const SUBMSG_INFO_TS: byte := 0x09
  const SUBMSG_DATA: byte := 0x15
  const SUBMSG_DATA_FRAG: byte := 0x16

  const FLAG_ENDIANNESS: byte := 0x01
  const FLAG_DATA: byte := 0x04

  // ---------------------------------------------------------------------------
  // Header
  // ---------------------------------------------------------------------------

  const RTPS_MAGIC: seq<byte> := [0x52, 0x54, 0x50, 0x53]
  const HEADER_LEN: nat := 20

  type Pair = s: seq<byte> | |s| == 2 witness [0, 0]

  datatype Header = Header(version: Pair, vendor: Pair, prefix: GuidPrefix)

  function EncodeHeader(h: Header): (b: seq<byte>)
    ensures |b| == HEADER_LEN
  {
    RTPS_MAGIC + h.version + h.vendor + h.prefix
  }

  function DecodeHeader(b: seq<byte>): Result<Header, DecodeError> {
    if |b| < HEADER_LEN then Err(Truncated(HEADER_LEN, |b|))
    else if b[0..4] != RTPS_MAGIC then Err(BadMagic)
    else Ok(Header(b[4..6], b[6..8], b[8..20]))
  }

  function WrapInRtpsMessage(h: Header, submessages: seq<byte>): seq<byte> {
    EncodeHeader(h) + submessages
  }

  lemma HeaderRoundTrip(h: Header, rest: seq<byte>)
    ensures DecodeHeader(WrapInRtpsMessage(h, rest)) == Ok(h)
    ensures WrapInRtpsMessage(h, rest)[HEADER_LEN..] == rest
  {
    var b := WrapInRtpsMessage(h, rest);
    assert b[0..4] == RTPS_MAGIC && b[4..6] == h.version && b[6..8] == h.vendor && b[8..20] == h.prefix;
  }

  /** A header is accepted exactly when 20 octets are there and begin with "RTPS"; nothing of it is lost. */
  lemma HeaderAcceptedIff(b: seq<byte>)
    ensures DecodeHeader(b).Ok? <==> |b| >= 20 && b[0..4] == [0x52, 0x54, 0x50, 0x53]
    ensures DecodeHeader(b).Ok? ==>
              && EncodeHeader(DecodeHeader(b).value) == b[0..20]
              && DecodeHeader(b).value.version == b[4..6] && DecodeHeader(b).value.prefix == b[8..20]
  {
  }

  // ---------------------------------------------------------------------------
  // Framing
  // ---------------------------------------------------------------------------

  datatype Raw = Raw(id: byte, flags: byte, body: seq<byte>)

  /** A submessage with its 4-octet header; the length field keeps 16 bits of the body length. */
  function Frame(m: Raw): (b: seq<byte>)
    ensures |b| == 4 + |m.body|
  {
    [m.id, m.flags] + Le(|m.body| % TWO_16, 2) + m.body
  }

  datatype Item = End | Overrun(expected: nat, got: nat) | Sub(raw: Raw, rest: seq<byte>)

  predicate MayBeEmpty(id: byte) {
    id == SUBMSG_PAD || id == SUBMSG_INFO_TS
  }

  /** The first submessage of a message body. */
  function FirstOf(b: seq<byte>): Item {
    if |b| < 4 then End
    else
      var declared := U16At(b, 2);
      var rest := b[4..];
      var length := if declared == 0 && !MayBeEmpty(b[0]) then |rest| else declared;
      if length > |rest| then Overrun(length, |rest|)
      else Sub(Raw(b[0], b[1], rest[..length]), rest[length..])
  }

  class SubmessageIter {
    var body: seq<byte>
    var errored: bool

    constructor (body: seq<byte>)
      ensures this.body == body && !errored
    {
      this.body, errored := body, false;
    }

    method Next() returns (item: Item)
      modifies this
      ensures item == if old(errored) then End else FirstOf(old(body))
      ensures errored == (old(errored) || item.Overrun?)
      ensures body == if item.Sub? then item.rest else old(body)
    {
      if errored || |body| < 4 {
        return End;
      }
      var id, flags := body[0], body[1];
      var length := U16At(body, 2);
      var rest := body[4..];
      if length == 0 && id != SUBMSG_PAD && id != SUBMSG_INFO_TS {
        length := |rest|;
      }
      if length > |rest| {
        errored := true;
        return Overrun(length, |rest|);
      }
      var msgBody, remainder := rest[..length], rest[length..];
      body := remainder;
      return Sub(Raw(id, flags, msgBody), remainder);
    }
  }

  /** Everything the iterator yields: the submessages, the octets left over, and whether it stopped on
      a submessage that overruns them. */
  function Parse(b: seq<byte>): (seq<Raw>, seq<byte>, bool)
    decreases |b|
  {
    match FirstOf(b)
    case End => ([], b, false)
    case Overrun(_, _) => ([], b, true)
    case Sub(raw, rest) =>
      var (items, left, bad) := Parse(rest);
      ([raw] + items, left, bad)
  }

  /** The items, each behind its own 4-octet header, and then `left`, are exactly the octets of `b`. */
  ghost predicate Tiles(b: seq<byte>, items: seq<Raw>, left: seq<byte>) {
    if items == [] then b == left
    else
      var m := items[0];
      && |b| >= 4 + |m.body|
      && b[0] == m.id && b[1] == m.flags && b[4..4 + |m.body|] == m.body
      && (U16At(b, 2) == |m.body| || (U16At(b, 2) == 0 && !MayBeEmpty(m.id) && |b| == 4 + |m.body|))
      && Tiles(b[4 + |m.body|..], items[1..], left)
  }

  /** On arbitrary octets: nothing is skipped, repeated or read out of range, and iteration ends
      cleanly exactly when fewer than four octets remain. */
  lemma {:induction false} ParseLossless(b: seq<byte>)
    ensures var (items, left, bad) := Parse(b);
            && Tiles(b, items, left)
            && (!bad <==> |left| < 4)
            && (bad ==> U16At(left, 2) > |left| - 4)
    decreases |b|
  {
    match FirstOf(b) {
      case Sub(raw, rest) =>
        ParseLossless(rest);
        var (items, left, bad) := Parse(rest);
        assert ([raw] + items)[1..] == items;
        assert b[4 + |raw.body|..] == rest;
      case _ =>
    }
  }

  /** A framed submessage is read back, with what follows it left in place, exactly when its length
      fits the 16-bit field and is not the zero that means "to the end"; a length that wraps to that
      zero is still read back when nothing follows. */
  lemma FrameReadBackIff(m: Raw, rest: seq<byte>)
    ensures FirstOf(Frame(m) + rest) == Sub(m, rest) <==>
              if |m.body| % 0x1_0000 == 0 && m.id != 0x01 && m.id != 0x09 then rest == []
              else |m.body| < 0x1_0000
  {
    var b := Frame(m) + rest;
    assert b[2..4] == Le(|m.body| % TWO_16, 2);
    U16Written(b, 2, |m.body| % TWO_16);
    assert b[4..] == m.body + rest;
    if |m.body| % TWO_16 == 0 && !MayBeEmpty(m.id) {
      if rest == [] { assert b[4..] == m.body; }
    } else if |m.body| < TWO_16 {
      assert b[4..][..|m.body|] == m.body && b[4..][|m.body|..] == rest;
    }
  }

  /** The header of a submessage, and the rule for a length of zero: nothing for PAD and INFO_TS, everything
      to the end for the others. */
  lemma FirstMeaning(id: byte, flags: byte, length: nat, rest: seq<byte>)
    requires length < 0x1_0000
    ensures var b := [id, flags] + Le(length, 2) + rest;
            FirstOf(b) == if length == 0 && id != 0x01 && id != 0x09 then Sub(Raw(id, flags, rest), [])
                          else if length <= |rest| then Sub(Raw(id, flags, rest[..length]), rest[length..])
                          else Overrun(length, |rest|)
  {
    var b := [id, flags] + Le(length, 2) + rest;
    assert b[2..4] == Le(length, 2) && b[4..] == rest;
    U16Written(b, 2, length);
    assert rest[..|rest|] == rest && rest[|rest|..] == [];
  }

  function Frames(ms: seq<Raw>): seq<byte> {
    if ms == [] then [] else Frame(ms[0]) + Frames(ms[1..])
  }

  /** Only the last submessage may be empty, except the kinds that are legitimately so. */
  ghost predicate WellFormed(ms: seq<Raw>) {
    forall i | 0 <= i < |ms| ::
      |ms[i].body| < TWO_16 && (ms[i].body == [] ==> MayBeEmpty(ms[i].id) || i == |ms| - 1)
  }

  lemma FrameReadBack(m: Raw, rest: seq<byte>)
    requires |m.body| < TWO_16 && (m.body == [] && !MayBeEmpty(m.id) ==> rest == [])
    ensures FirstOf(Frame(m) + rest) == Sub(m, rest)
  {
    FrameReadBackIff(m, rest);
  }

  lemma FirstOfFrames(ms: seq<Raw>)
    requires WellFormed(ms) && ms != []
    ensures FirstOf(Frames(ms)) == Sub(ms[0], Frames(ms[1..]))
    ensures WellFormed(ms[1..])
  {
    if ms[0].body == [] && !MayBeEmpty(ms[0].id) {
      assert ms[1..] == [];
    }
    FrameReadBack(ms[0], Frames(ms[1..]));
    forall i | 0 <= i < |ms[1..]|
      ensures |ms[1..][i].body| < TWO_16 && (ms[1..][i].body == [] ==> MayBeEmpty(ms[1..][i].id) || i == |ms[1..]| - 1)
    {
      assert ms[1..][i] == ms[i + 1];
    }
  }

  /** On a concatenation of well-formed submessages the iterator yields exactly that list. */
  lemma {:induction false} ParseFrames(ms: seq<Raw>)
    requires WellFormed(ms)
    ensures Parse(Frames(ms)) == (ms, [], false)
  {
    if ms != [] {
      FirstOfFrames(ms);
      ParseFrames(ms[1..]);
      assert [ms[0]] + ms[1..] == ms;
    }
  }

  /** A message of one submessage comes back whole, up to one octet beyond 16 bits of body. */
  lemma OneSubmessage(h: Header, m: Raw)
    requires |m.body| < TWO_16 || (|m.body| == TWO_16 && !MayBeEmpty(m.id))
    ensures var b := WrapInRtpsMessage(h, Frame(m));
            && DecodeHeader(b) == Ok(h)
            && FirstOf(b[HEADER_LEN..]) == Sub(m, [])
            && Parse(b[HEADER_LEN..]).0 == [m]
  {
    HeaderRoundTrip(h, Frame(m));
    FrameReadBackIff(m, []);
    assert Frame(m) + [] == Frame(m);
    assert Parse([]).0 == [];
  }

  // ---------------------------------------------------------------------------
  // Submessage bodies
  // ---------------------------------------------------------------------------

  function EncodeSn(n: SequenceNumber): (b: seq<byte>)
    ensures |b| == 8
  {
    Le(AsU32(n.high), 4) + Le(n.low, 4)
  }

  function DecodeSn(b: seq<byte>, pos: nat): SequenceNumber
    requires pos + 8 <= |b|
  {
    SequenceNumber(AsI32(U32At(b, pos)), U32At(b, pos + 4))
  }

  lemma SnWritten(b: seq<byte>, pos: nat, n: SequenceNumber)
    requires pos + 8 <= |b| && b[pos..pos + 8] == EncodeSn(n)
    ensures DecodeSn(b, pos) == n
  {
    assert b[pos..pos + 4] == b[pos..pos + 8][..4] == Le(AsU32(n.high), 4);
    assert b[pos + 4..pos + 8] == b[pos..pos + 8][4..] == Le(n.low, 4);
    U32Written(b, pos, AsU32(n.high));
    U32Written(b, pos + 4, n.low);
  }

  datatype DataSubmessage = DataSubmessage(
    reader: EntityId, writer: EntityId, sn: SequenceNumber, payload: Option<seq<byte>>)

  function EncodeData(writer: EntityId, reader: EntityId, sn: SequenceNumber, payload: seq<byte>): Raw {
    Raw(SUBMSG_DATA, FLAG_ENDIANNESS + FLAG_DATA, Le(0, 2) + Le(16, 2) + reader + writer + EncodeSn(sn) + payload)
  }

  predicate HasData(flags: byte) {
    (flags as int / 4) % 2 == 1
  }

  function DecodeData(flags: byte, b: seq<byte>): Result<DataSubmessage, DecodeError> {
    if |b| < 20 then Err(Truncated(20, |b|))
    else Ok(DataSubmessage(b[4..8], b[8..12], DecodeSn(b, 12),
                           if HasData(flags) && |b| > 20 then Some(b[20..]) else None))
  }

  lemma DataRoundTrip(writer: EntityId, reader: EntityId, sn: SequenceNumber, payload: seq<byte>)
    ensures var m := EncodeData(writer, reader, sn, payload);
            && |m.body| == 20 + |payload|
            && DecodeData(m.flags, m.body) ==
               Ok(DataSubmessage(reader, writer, sn, if payload == [] then None else Some(payload)))
  {
    var b := EncodeData(writer, reader, sn, payload).body;
    assert b[4..8] == reader && b[8..12] == writer && b[12..20] == EncodeSn(sn) && b[20..] == payload;
    SnWritten(b, 12, sn);
  }

  function EncodeDataFrag(f: DataFrag): Raw {
    Raw(SUBMSG_DATA_FRAG, FLAG_ENDIANNESS,
        Le(0, 2) + Le(0, 2) + f.reader + f.writer + EncodeSn(f.sn)
        + Le(f.start, 4) + Le(f.count, 2) + Le(f.size, 2) + Le(f.dataSize, 4) + f.payload)
  }

  function DecodeDataFrag(b: seq<byte>): Result<DataFrag, DecodeError> {
    if |b| < 32 then Err(Truncated(32, |b|))
    else Ok(DataFrag(b[8..12], b[4..8], DecodeSn(b, 12), U32At(b, 20), U16At(b, 24), U16At(b, 26), U32At(b, 28), b[32..]))
  }

  lemma DataFragSlices(f: DataFrag)
    ensures var b := EncodeDataFrag(f).body;
            && |b| == 32 + |f.payload|
            && b[4..8] == f.reader && b[8..12] == f.writer && b[12..20] == EncodeSn(f.sn) && b[32..] == f.payload
            && b[20..24] == Le(f.start, 4) && b[24..26] == Le(f.count, 2)
            && b[26..28] == Le(f.size, 2) && b[28..32] == Le(f.dataSize, 4)
  {
    var b := EncodeDataFrag(f).body;
    var who := Le(0, 2) + Le(0, 2) + f.reader + f.writer + EncodeSn(f.sn);
    var what := Le(f.start, 4) + Le(f.count, 2) + Le(f.size, 2) + Le(f.dataSize, 4);
    assert |who| == 20 && |what| == 12 && b == who + what + f.payload;
    assert who[4..8] == f.reader && who[8..12] == f.writer && who[12..20] == EncodeSn(f.sn);
    assert what[0..4] == Le(f.start, 4) && what[4..6] == Le(f.count, 2) && what[6..8] == Le(f.size, 2);
    assert what[8..12] == Le(f.dataSize, 4);
    Inside(who, what, f.payload, 4, 8);
    Inside(who, what, f.payload, 8, 12);
    Inside(who, what, f.payload, 12, 20);
    Beyond(who, what, f.payload, 0, 4);
    Beyond(who, what, f.payload, 4, 6);
    Beyond(who, what, f.payload, 6, 8);
    Beyond(who, what, f.payload, 8, 12);
  }

  lemma Inside(a: seq<byte>, b: seq<byte>, c: seq<byte>, from: nat, to: nat)
    requires from <= to <= |a|
    ensures (a + b + c)[from..to] == a[from..to]
  {
  }

  lemma Beyond(a: seq<byte>, b: seq<byte>, c: seq<byte>, from: nat, to: nat)
    requires from <= to <= |b|
    ensures (a + b + c)[|a| + from..|a| + to] == b[from..to] && (a + b + c)[|a| + |b|..] == c
  {
  }

  lemma DataFragWritten(f: DataFrag)
    ensures var b := EncodeDataFrag(f).body;
            && |b| == 32 + |f.payload| && b[4..8] == f.reader && b[8..12] == f.writer && b[32..] == f.payload
            && b[12..20] == EncodeSn(f.sn) && U32At(b, 20) == f.start && U16At(b, 24) == f.count
            && U16At(b, 26) == f.size && U32At(b, 28) == f.dataSize
  {
    var b := EncodeDataFrag(f).body;
    DataFragSlices(f);
    U32Written(b, 20, f.start);
    U16Written(b, 24, f.count);
    U16Written(b, 26, f.size);
    U32Written(b, 28, f.dataSize);
  }

  lemma DataFragRoundTrip(f: DataFrag)
    ensures |EncodeDataFrag(f).body| == 32 + |f.payload|
    ensures DecodeDataFrag(EncodeDataFrag(f).body) == Ok(f)
  {
    DataFragWritten(f);
    SnWritten(EncodeDataFrag(f).body, 12, f.sn);
  }

  /** DATA on the wire (section 9.4.5.3): where each field lies, with the data flag set. */
  lemma DataLayout(writer: EntityId, reader: EntityId, sn: SequenceNumber, payload: seq<byte>)
    ensures var m := EncodeData(writer, reader, sn, payload);
            && m.id == 0x15 && m.flags == 0x05
            && |m.body| >= 20 && U16At(m.body, 0) == 0 && U16At(m.body, 2) == 16
            && m.body[4..8] == reader && m.body[8..12] == writer
            && U32At(m.body, 12) == AsU32(sn.high) && U32At(m.body, 16) == sn.low && m.body[20..] == payload
  {
    var b := EncodeData(writer, reader, sn, payload).body;
    assert b[0..2] == Le(0, 2) && b[2..4] == Le(16, 2);
    U16Written(b, 0, 0);
    U16Written(b, 2, 16);
    assert b[4..8] == reader && b[8..12] == writer && b[12..20] == EncodeSn(sn) && b[20..] == payload;
    SnAt(b, 12, sn);
  }

  lemma SnAt(b: seq<byte>, pos: nat, n: SequenceNumber)
    requires pos + 8 <= |b| && b[pos..pos + 8] == EncodeSn(n)
    ensures U32At(b, pos) == AsU32(n.high) && U32At(b, pos + 4) == n.low
  {
    assert b[pos..pos + 4] == b[pos..pos + 8][..4] == Le(AsU32(n.high), 4);
    assert b[pos + 4..pos + 8] == b[pos..pos + 8][4..] == Le(n.low, 4);
    U32Written(b, pos, AsU32(n.high));
    U32Written(b, pos + 4, n.low);
  }

  /** Without the data flag, or without octets after the fixed part, a DATA carries no payload. */
  lemma DataPayloadIff(flags: byte, b: seq<byte>)
    ensures DecodeData(flags, b).Ok? <==> |b| >= 20
    ensures |b| >= 20 ==>
              && (DecodeData(flags, b).value.payload.Some? <==> |b| > 20 && (flags as int / 4) % 2 == 1)
              && (DecodeData(flags, b).value.payload.Some? ==> DecodeData(flags, b).value.payload.value == b[20..])
  {
  }

  /** DATA_FRAG on the wire (section 9.4.5.4). */
  lemma DataFragLayout(f: DataFrag)
    ensures var m := EncodeDataFrag(f);
            && m.id == 0x16 && m.flags == 0x01 && |m.body| >= 32
            && m.body[4..8] == f.reader && m.body[8..12] == f.writer
            && U32At(m.body, 12) == AsU32(f.sn.high) && U32At(m.body, 16) == f.sn.low
            && U32At(m.body, 20) == f.start && U16At(m.body, 24) == f.count && U16At(m.body, 26) == f.size
            && U32At(m.body, 28) == f.dataSize && m.body[32..] == f.payload
  {
    DataFragWritten(f);
    SnAt(EncodeDataFrag(f).body, 12, f.sn);
  }

  datatype Heartbeat = Heartbeat(reader: EntityId, writer: EntityId, first: SequenceNumber, last: SequenceNumber, count: I32)

  function EncodeHeartbeat(hb: Heartbeat): Raw {
    Raw(SUBMSG_HEARTBEAT, FLAG_ENDIANNESS,
        hb.reader + hb.writer + EncodeSn(hb.first) + EncodeSn(hb.last) + Le(AsU32(hb.count), 4))
  }

  function DecodeHeartbeat(b: seq<byte>): Result<Heartbeat, DecodeError> {
    if |b| < 28 then Err(Truncated(28, |b|))
    else Ok(Heartbeat(b[0..4], b[4..8], DecodeSn(b, 8), DecodeSn(b, 16), AsI32(U32At(b, 24))))
  }

  lemma HeartbeatRoundTrip(hb: Heartbeat)
    ensures |EncodeHeartbeat(hb).body| == 28
    ensures DecodeHeartbeat(EncodeHeartbeat(hb).body) == Ok(hb)
  {
    var b := EncodeHeartbeat(hb).body;
    assert b[0..4] == hb.reader && b[4..8] == hb.writer;
    assert b[8..16] == EncodeSn(hb.first) && b[16..24] == EncodeSn(hb.last) && b[24..28] == Le(AsU32(hb.count), 4);
    SnWritten(b, 8, hb.first);
    SnWritten(b, 16, hb.last);
    U32Written(b, 24, AsU32(hb.count));
  }

  /** HEARTBEAT on the wire (section 9.4.5.6). */
  lemma HeartbeatLayout(hb: Heartbeat)
    ensures var m := EncodeHeartbeat(hb);
            && m.id == 0x07 && m.flags == 0x01 && |m.body| == 28
            && m.body[0..4] == hb.reader && m.body[4..8] == hb.writer
            && U32At(m.body, 8) == AsU32(hb.first.high) && U32At(m.body, 12) == hb.first.low
            && U32At(m.body, 16) == AsU32(hb.last.high) && U32At(m.body, 20) == hb.last.low
            && U32At(m.body, 24) == AsU32(hb.count)
  {
    var b := EncodeHeartbeat(hb).body;
    assert b[0..4] == hb.reader && b[4..8] == hb.writer && b[24..28] == Le(AsU32(hb.count), 4);
    U32Written(b, 24, AsU32(hb.count));
    SnAt(b, 8, hb.first);
    SnAt(b, 16, hb.last);
  }

  /** The 32-bit word of a bitmap, bit 0 least significant. */
  function Word(bits: seq<bool>): nat {
    if bits == [] then 0 else (if bits[0] then 1 else 0) + 2 * Word(bits[1..])
  }

  function BitsOf(v: nat, n: nat): (bits: seq<bool>)
    ensures |bits| == n
  {
    if n == 0 then [] else [v % 2 == 1] + BitsOf(v / 2, n - 1)
  }

  function Pow2(n: nat): (p: nat)
    ensures p > 0
  {
    if n == 0 then 1 else 2 * Pow2(n - 1)
  }

  lemma {:induction false} WordRoundTrip(bits: seq<bool>)
    ensures Word(bits) < Pow2(|bits|)
    ensures BitsOf(Word(bits), |bits|) == bits
  {
    if bits != [] {
      WordRoundTrip(bits[1..]);
      assert Word(bits) / 2 == Word(bits[1..]);
    }
  }

  lemma WordFits(bits: Bitmap)
    ensures Word(bits) < TWO_32
  {
    WordRoundTrip(bits);
    assert Pow2(8) == 256 by { assert Pow2(4) == 16; }
    assert Pow2(16) == 65536 by { assert Pow2(12) == 4096; }
    assert Pow2(24) == 0x100_0000 by { assert Pow2(20) == 0x10_0000; }
    assert Pow2(32) == TWO_32 by { assert Pow2(28) == 0x1000_0000; }
  }

  datatype AckNack = AckNack(reader: EntityId, writer: EntityId, base: SequenceNumber, bits: Bitmap, count: I32)

  function EncodeAckNack(an: AckNack): Raw {
    Raw(SUBMSG_ACKNACK, FLAG_ENDIANNESS,
        an.reader + an.writer + EncodeSn(an.base) + Le(WINDOW, 4) + Le(Word(an.bits), 4) + Le(AsU32(an.count), 4))
  }

  /** The declared number of bits is not looked at: the bitmap is always one word. */
  function DecodeAckNack(b: seq<byte>): Result<AckNack, DecodeError> {
    if |b| < 28 then Err(Truncated(28, |b|))
    else Ok(AckNack(b[0..4], b[4..8], DecodeSn(b, 8), BitsOf(U32At(b, 20), WINDOW), AsI32(U32At(b, 24))))
  }

  /** Bit `k` of the word is entry `k` of the bitmap. */
  lemma {:induction false} WordBit(bits: seq<bool>, k: nat)
    requires k < |bits|
    ensures (Word(bits) / Pow2(k)) % 2 == 1 <==> bits[k]
  {
    if k > 0 {
      WordBit(bits[1..], k - 1);
      assert Word(bits) / 2 == Word(bits[1..]);
      HalfThenDiv(Word(bits), Pow2(k - 1));
    }
  }

  lemma HalfThenDiv(v: nat, m: nat)
    requires m > 0
    ensures v / 2 / m == v / (2 * m)
  {
    var q, r := v / 2 / m, v / 2 % m;
    assert v / 2 == q * m + r;
    assert v == q * (2 * m) + (2 * r + v % 2);
    QuotientIs(v, 2 * m, q, 2 * r + v % 2);
  }

  /** ACKNACK on the wire (section 9.4.5.2), with a bitmap of 32 bits. */
  lemma AckNackLayout(an: AckNack)
    ensures var m := EncodeAckNack(an);
            && m.id == 0x06 && m.flags == 0x01 && |m.body| == 28
            && m.body[0..4] == an.reader && m.body[4..8] == an.writer
            && U32At(m.body, 8) == AsU32(an.base.high) && U32At(m.body, 12) == an.base.low
            && U32At(m.body, 16) == 32 && U32At(m.body, 24) == AsU32(an.count)
            && forall k | 0 <= k < WINDOW :: (U32At(m.body, 20) / Pow2(k)) % 2 == 1 <==> an.bits[k]
  {
    var b := EncodeAckNack(an).body;
    AckNackWritten(an);
    AckNackBitCount(an);
    WordFits(an.bits);
    U32Written(b, 20, Word(an.bits));
    U32Written(b, 24, AsU32(an.count));
    SnAt(b, 8, an.base);
    forall k | 0 <= k < WINDOW
      ensures (U32At(b, 20) / Pow2(k)) % 2 == 1 <==> an.bits[k]
    {
      WordBit(an.bits, k);
    }
  }

  lemma AckNackBitCount(an: AckNack)
    ensures |EncodeAckNack(an).body| == 28 && U32At(EncodeAckNack(an).body, 16) == 32
  {
    var b := EncodeAckNack(an).body;
    assert b == an.reader + an.writer + EncodeSn(an.base) + Le(WINDOW, 4) + (Le(Word(an.bits), 4) + Le(AsU32(an.count), 4));
    assert b[16..20] == Le(WINDOW, 4);
    U32Written(b, 16, WINDOW);
  }

  lemma AckNackWritten(an: AckNack)
    ensures var b := EncodeAckNack(an).body;
            && |b| == 28 && b[0..4] == an.reader && b[4..8] == an.writer && b[8..16] == EncodeSn(an.base)
            && b[20..24] == Le(Word(an.bits), 4) && b[24..28] == Le(AsU32(an.count), 4)
  {
    var fixed := an.reader + an.writer + EncodeSn(an.base) + Le(WINDOW, 4);
    var b := EncodeAckNack(an).body;
    assert |fixed| == 20 && b == fixed + (Le(Word(an.bits), 4) + Le(AsU32(an.count), 4));
    assert fixed[0..4] == an.reader && fixed[4..8] == an.writer && fixed[8..16] == EncodeSn(an.base);
  }

  lemma Decoded(b: seq<byte>, an: AckNack)
    requires |b| == 28 && b[0..4] == an.reader && b[4..8] == an.writer && DecodeSn(b, 8) == an.base
    requires BitsOf(U32At(b, 20), WINDOW) == an.bits && AsI32(U32At(b, 24)) == an.count
    ensures DecodeAckNack(b) == Ok(an)
  {
  }

  lemma BitsWritten(b: seq<byte>, bits: Bitmap)
    requires |b| == 28 && b[20..24] == Le(Word(bits), 4)
    ensures BitsOf(U32At(b, 20), WINDOW) == bits
  {
    WordFits(bits);
    WordRoundTrip(bits);
    U32Written(b, 20, Word(bits));
  }

  lemma AckNackRoundTrip(an: AckNack)
    ensures |EncodeAckNack(an).body| == 28
    ensures DecodeAckNack(EncodeAckNack(an).body) == Ok(an)
  {
    var b := EncodeAckNack(an).body;
    AckNackWritten(an);
    SnWritten(b, 8, an.base);
    BitsWritten(b, an.bits);
    U32Written(b, 24, AsU32(an.count));
    Decoded(b, an);
  }

  datatype Gap = Gap(reader: EntityId, writer: EntityId, start: SequenceNumber, end: SequenceNumber)

  function EncodeGap(g: Gap): Raw {
    Raw(SUBMSG_GAP, FLAG_ENDIANNESS,
        g.reader + g.writer + EncodeSn(g.start)
        + Le(AsU32(g.end.high), 4) + Le((g.end.low + 1) % TWO_32, 4) + Le(0, 4))
  }

  /** The first number after the gap, as a conforming receiver reads it from the gap list. */
  function GapListBase(b: seq<byte>): U64
    requires |b| == 28
  {
    DecodeSn(b, 16).ToU64()
  }

  lemma CarryIff(n: SequenceNumber)
    ensures SequenceNumber(n.high, (n.low + 1) % TWO_32).ToU64() == n.ToU64() + 1 <==> n.low < TWO_32 - 1
  {
  }

  lemma GapListWritten(g: Gap)
    ensures |EncodeGap(g).body| == 28
    ensures DecodeSn(EncodeGap(g).body, 16) == SequenceNumber(g.end.high, (g.end.low + 1) % TWO_32)
  {
    var next := SequenceNumber(g.end.high, (g.end.low + 1) % TWO_32);
    var before := g.reader + g.writer + EncodeSn(g.start);
    var b := EncodeGap(g).body;
    assert b == before + EncodeSn(next) + Le(0, 4);
    assert b[16..24] == EncodeSn(next);
    SnWritten(b, 16, next);
  }

  /** GAP on the wire (section 9.4.5.5): the start, the list's base one past the end without carry, and an
      empty list. */
  lemma GapLayout(g: Gap)
    ensures var m := EncodeGap(g);
            && m.id == 0x08 && m.flags == 0x01 && |m.body| == 28
            && m.body[0..4] == g.reader && m.body[4..8] == g.writer
            && U32At(m.body, 8) == AsU32(g.start.high) && U32At(m.body, 12) == g.start.low
            && U32At(m.body, 16) == AsU32(g.end.high) && U32At(m.body, 20) == (g.end.low + 1) % 0x1_0000_0000
            && U32At(m.body, 24) == 0
  {
    var b := EncodeGap(g).body;
    GapSlices(g);
    U32Written(b, 24, 0);
    SnAt(b, 8, g.start);
    SnAt(b, 16, SequenceNumber(g.end.high, (g.end.low + 1) % TWO_32));
  }

  lemma GapSlices(g: Gap)
    ensures var b := EncodeGap(g).body;
            && |b| == 28 && b[0..4] == g.reader && b[4..8] == g.writer && b[8..16] == EncodeSn(g.start)
            && b[16..24] == EncodeSn(SequenceNumber(g.end.high, (g.end.low + 1) % TWO_32)) && b[24..28] == Le(0, 4)
  {
    var b, next := EncodeGap(g).body, SequenceNumber(g.end.high, (g.end.low + 1) % TWO_32);
    var who, list := g.reader + g.writer + EncodeSn(g.start), EncodeSn(next) + Le(0, 4);
    assert b == who + list + [];
    assert who[0..4] == g.reader && who[4..8] == g.writer && who[8..16] == EncodeSn(g.start);
    assert list[0..8] == EncodeSn(next) && list[8..12] == Le(0, 4);
    Inside(who, list, [], 0, 4);
    Inside(who, list, [], 4, 8);
    Inside(who, list, [], 8, 16);
    Beyond(who, list, [], 0, 8);
    Beyond(who, list, [], 8, 12);
  }

  /** The gap list names the number after the gap exactly when the low half does not wrap: the carry
      into the high half is not propagated. */
  lemma GapBaseIff(g: Gap)
    ensures |EncodeGap(g).body| == 28
    ensures GapListBase(EncodeGap(g).body) == g.end.ToU64() + 1 <==> g.end.low < TWO_32 - 1
  {
    GapListWritten(g);
    CarryIff(g.end);
  }
}
