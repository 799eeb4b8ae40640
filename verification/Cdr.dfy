/** CDR payload encapsulation and the parameter lists of discovery (sections 9.6 and 10.2 of RTPS 2.3). */
module Cdr {
  import opened Wrappers
  import opened Bytes
  import opened Ids
  import opened Messages

  const CDR_LE: U16 := 0x0001
  const PL_CDR_LE: U16 := 0x0003
  const PID_PAD: U16 := 0x0000
  const PID_SENTINEL: U16 := 0x0001

  // ---------------------------------------------------------------------------
  // Payload encapsulation
  // ---------------------------------------------------------------------------

  function WrapPayload(payload: seq<byte>): seq<byte> {
    Le(CDR_LE, 2) + [0, 0] + payload
  }

  function UnwrapPayload(b: seq<byte>): Result<seq<byte>, DecodeError> {
    if |b| < 4 then Err(Truncated(4, |b|))
    else
      var scheme := U16At(b, 0);
      if scheme != CDR_LE && scheme != PL_CDR_LE then Err(InvalidCdrScheme(scheme)) else Ok(b[4..])
  }

  lemma PayloadRoundTrip(payload: seq<byte>)
    ensures UnwrapPayload(WrapPayload(payload)) == Ok(payload) && |WrapPayload(payload)| == 4 + |payload|
  {
    U16Written(WrapPayload(payload), 0, CDR_LE);
  }

  // ---------------------------------------------------------------------------
  // Parameter lists
  // ---------------------------------------------------------------------------

  datatype Param = Param(pid: U16, value: seq<byte>)

  function Zeros(n: nat): seq<byte> {
    seq(n, _ => 0)
  }

  /** `n` rounded up to a multiple of four. */
  function Padded(n: nat): (p: nat)
    ensures n <= p < n + 4 && p % 4 == 0
  {
    (n + 3) / 4 * 4
  }

  function PadValue(value: seq<byte>): seq<byte> {
    value + Zeros(Padded(|value|) - |value|)
  }

  function EncodeParam(p: Param): seq<byte> {
    Le(p.pid, 2) + Le(Padded(|p.value|) % TWO_16, 2) + PadValue(p.value)
  }

  function EncodeParams(ps: seq<Param>): seq<byte> {
    if ps == [] then [] else EncodeParam(ps[0]) + EncodeParams(ps[1..])
  }

  const PL_HEADER: seq<byte> := Le(PL_CDR_LE, 2) + [0, 0]
  const PL_END: seq<byte> := Le(PID_SENTINEL, 2) + [0, 0]

  function EncodeList(ps: seq<Param>): seq<byte> {
    PL_HEADER + EncodeParams(ps) + PL_END
  }

  lemma {:induction false} EncodeParamsSnoc(ps: seq<Param>, p: Param)
    ensures EncodeParams(ps + [p]) == EncodeParams(ps) + EncodeParam(p)
  {
    if ps == [] {
      assert EncodeParams([p]) == EncodeParam(p) + EncodeParams([]);
    } else {
      assert (ps + [p])[1..] == ps[1..] + [p];
      EncodeParamsSnoc(ps[1..], p);
    }
  }

  lemma AppendParam(ps: seq<Param>, p: Param)
    ensures PL_HEADER + EncodeParams(ps + [p])
            == (PL_HEADER + EncodeParams(ps)) + Le(p.pid, 2) + Le(Padded(|p.value|) % TWO_16, 2)
               + p.value + Zeros(Padded(|p.value|) - |p.value|)
  {
    EncodeParamsSnoc(ps, p);
  }

  class PlCdrEncoder {
    var buf: seq<byte>
    ghost var Params: seq<Param>

    ghost predicate Valid()
      reads this
    {
      buf == PL_HEADER + EncodeParams(Params)
    }

    constructor ()
      ensures Valid() && Params == []
    {
      buf := Le(PL_CDR_LE, 2) + [0, 0];
      Params := [];
    }

    method AddParam(pid: U16, value: seq<byte>)
      requires Valid()
      modifies this
      ensures Valid() && Params == old(Params) + [Param(pid, value)]
    {
      var padded := Padded(|value|);
      buf := buf + Le(pid, 2);
      buf := buf + Le(padded % TWO_16, 2);
      buf := buf + value;
      ghost var before := buf;
      for i := |value| to padded
        invariant buf == before + Zeros(i - |value|)
        invariant Params == old(Params)
      {
        buf := buf + [0];
        assert Zeros(i + 1 - |value|) == Zeros(i - |value|) + [0];
      }
      AppendParam(old(Params), Param(pid, value));
      Params := Params + [Param(pid, value)];
    }

    method Finish() returns (b: seq<byte>)
      requires Valid()
      ensures b == EncodeList(Params)
    {
      b := buf + Le(PID_SENTINEL, 2) + [0, 0];
    }
  }

  /** The next parameter from position `pos`, and where the cursor ends up. Padding parameters are
      skipped by their header alone. */
  function NextParam(b: seq<byte>, pos: nat): (Option<Param>, nat)
    decreases |b| - pos
  {
    if pos + 4 > |b| then (None, pos)
    else
      var pid, length := U16At(b, pos), U16At(b, pos + 2);
      var pos' := pos + 4;
      if pid == PID_SENTINEL then (None, pos')
      else if pid == PID_PAD then NextParam(b, pos')
      else if pos' + length > |b| then (None, pos')
      else (Some(Param(pid, b[pos'..pos' + length])), pos' + length)
  }

  lemma {:induction false} NextParamAdvances(b: seq<byte>, pos: nat)
    ensures pos <= NextParam(b, pos).1
    ensures NextParam(b, pos).0.Some? ==> pos < NextParam(b, pos).1 <= |b|
    decreases |b| - pos
  {
    if pos + 4 <= |b| && U16At(b, pos) == PID_PAD {
      NextParamAdvances(b, pos + 4);
    }
  }

  class PlCdrDecoder {
    const buf: seq<byte>
    var pos: nat

    constructor (buf: seq<byte>)
      requires |buf| >= 4 && U16At(buf, 0) == PL_CDR_LE
      ensures this.buf == buf && pos == 4
    {
      this.buf, pos := buf, 4;
    }

    method Next() returns (p: Option<Param>)
      modifies this
      ensures (p, pos) == NextParam(buf, old(pos))
    {
      while true
        invariant NextParam(buf, pos) == NextParam(buf, old(pos))
        decreases |buf| - pos
      {
        if pos + 4 > |buf| {
          return None;
        }
        var pid := U16At(buf, pos);
        var length := U16At(buf, pos + 2);
        pos := pos + 4;
        if pid == PID_SENTINEL {
          return None;
        }
        if pid == PID_PAD {
          continue;
        }
        if pos + length > |buf| {
          return None;
        }
        var value := buf[pos..pos + length];
        pos := pos + length;
        return Some(Param(pid, value));
      }
    }
  }

  function DecodeFrom(b: seq<byte>, pos: nat): seq<Param>
    decreases |b| - pos
  {
    NextParamAdvances(b, pos);
    var (p, pos') := NextParam(b, pos);
    if p.None? then [] else [p.value] + DecodeFrom(b, pos')
  }

  function DecodeList(b: seq<byte>): Result<seq<Param>, DecodeError> {
    if |b| < 4 then Err(Truncated(4, |b|))
    else if U16At(b, 0) != PL_CDR_LE then Err(InvalidCdrScheme(U16At(b, 0)))
    else Ok(DecodeFrom(b, 4))
  }

  /** A parameter is read back, zero-padded to four octets, and the cursor moves to what follows,
      exactly when its padded length fits the 16-bit length field. */
  lemma ParamReadBackIff(before: seq<byte>, p: Param, after: seq<byte>)
    requires p.pid != PID_PAD && p.pid != PID_SENTINEL
    ensures NextParam(before + EncodeParam(p) + after, |before|)
            == (Some(Param(p.pid, PadValue(p.value))), |before| + |EncodeParam(p)|)
            <==> Padded(|p.value|) < TWO_16
  {
    var b, pos, length := before + EncodeParam(p) + after, |before|, Padded(|p.value|) % TWO_16;
    ParamSlices(before, Le(p.pid, 2), Le(length, 2), PadValue(p.value), after);
    U16Written(b, pos, p.pid);
    U16Written(b, pos + 2, length);
  }

  lemma ParamSlices(before: seq<byte>, pid: seq<byte>, length: seq<byte>, value: seq<byte>, after: seq<byte>)
    requires |pid| == 2 && |length| == 2
    ensures var b, pos := before + (pid + length + value) + after, |before|;
            && |b| == pos + 4 + |value| + |after|
            && b[pos..pos + 2] == pid && b[pos + 2..pos + 4] == length && b[pos + 4..pos + 4 + |value|] == value
  {
  }

  ghost predicate Encodable(ps: seq<Param>) {
    forall p <- ps :: p.pid != PID_PAD && p.pid != PID_SENTINEL && Padded(|p.value|) < TWO_16
  }

  function PadAll(ps: seq<Param>): seq<Param> {
    if ps == [] then [] else [Param(ps[0].pid, PadValue(ps[0].value))] + PadAll(ps[1..])
  }

  lemma DecodeStep(before: seq<byte>, p: Param, after: seq<byte>)
    requires p.pid != PID_PAD && p.pid != PID_SENTINEL && Padded(|p.value|) < TWO_16
    ensures DecodeFrom(before + EncodeParam(p) + after, |before|)
            == [Param(p.pid, PadValue(p.value))] + DecodeFrom(before + EncodeParam(p) + after, |before + EncodeParam(p)|)
  {
    ParamReadBackIff(before, p, after);
  }

  /** The sentinel ends the list, whatever follows it. */
  lemma SentinelEnds(before: seq<byte>, tail: seq<byte>)
    ensures NextParam(before + (PL_END + tail), |before|).0 == None
    ensures DecodeFrom(before + (PL_END + tail), |before|) == []
  {
    var b, pos := before + (PL_END + tail), |before|;
    SentinelSlice(before, Le(PID_SENTINEL, 2), tail);
    U16Written(b, pos, PID_SENTINEL);
  }

  lemma SentinelSlice(before: seq<byte>, pid: seq<byte>, tail: seq<byte>)
    requires |pid| == 2
    ensures var b, pos := before + (pid + [0, 0] + tail), |before|; |b| >= pos + 4 && b[pos..pos + 2] == pid
  {
  }

  /** A padding parameter is stepped over by its four octets, whatever length it gives. */
  lemma PadIsSkipped(before: seq<byte>, length: seq<byte>, after: seq<byte>)
    requires |length| == 2
    ensures NextParam(before + ([0, 0] + length + after), |before|)
            == NextParam(before + ([0, 0] + length + after), |before| + 4)
  {
    var b, pos := before + ([0, 0] + length + after), |before|;
    assert b[pos..pos + 2] == [0, 0] == Le(0, 2);
    U16Written(b, pos, 0);
  }

  lemma {:induction false} DecodeEncoded(before: seq<byte>, ps: seq<Param>, tail: seq<byte>)
    requires Encodable(ps)
    ensures DecodeFrom(before + (EncodeParams(ps) + (PL_END + tail)), |before|) == PadAll(ps)
    decreases |ps|
  {
    if ps == [] {
      assert EncodeParams(ps) + (PL_END + tail) == PL_END + tail;
      SentinelEnds(before, tail);
    } else {
      var p, rest := ps[0], ps[1..];
      assert p in ps && forall q <- rest :: q in ps;
      var after := EncodeParams(rest) + (PL_END + tail);
      assert EncodeParams(ps) + (PL_END + tail) == EncodeParam(p) + after;
      assert before + (EncodeParam(p) + after) == before + EncodeParam(p) + after;
      DecodeStep(before, p, after);
      DecodeEncoded(before + EncodeParam(p), rest, tail);
    }
  }

  /** Decoding an encoded list gives the same parameter ids in the same order, every value padded with
      zeros to a multiple of four, whatever follows the list. */
  lemma ListRoundTrip(ps: seq<Param>, tail: seq<byte>)
    requires Encodable(ps)
    ensures DecodeList(EncodeList(ps) + tail) == Ok(PadAll(ps))
  {
    var b := EncodeList(ps) + tail;
    assert b[0..2] == Le(PL_CDR_LE, 2);
    U16Written(b, 0, PL_CDR_LE);
    assert b == PL_HEADER + (EncodeParams(ps) + (PL_END + tail));
    DecodeEncoded(PL_HEADER, ps, tail);
  }

  lemma {:induction false} PadAllMeaning(ps: seq<Param>, i: nat)
    requires i < |ps|
    ensures |PadAll(ps)| == |ps| && PadAll(ps)[i].pid == ps[i].pid
    ensures |PadAll(ps)[i].value| % 4 == 0 && |PadAll(ps)[i].value| < |ps[i].value| + 4
    ensures ps[i].value <= PadAll(ps)[i].value
    ensures forall k | |ps[i].value| <= k < |PadAll(ps)[i].value| :: PadAll(ps)[i].value[k] == 0
  {
    if i > 0 {
      PadAllMeaning(ps[1..], i - 1);
    } else if |ps| > 1 {
      PadAllMeaning(ps[1..], 0);
    }
  }

  /** The octets of the encapsulation headers and of the sentinel, and which headers are accepted. */
  lemma HeaderOctets(payload: seq<byte>, b: seq<byte>)
    ensures WrapPayload(payload) == [1, 0, 0, 0] + payload
    ensures PL_HEADER == [3, 0, 0, 0] && PL_END == [1, 0, 0, 0]
    ensures UnwrapPayload(b).Ok? <==> |b| >= 4 && b[1] == 0 && (b[0] == 1 || b[0] == 3)
    ensures UnwrapPayload(b).Ok? ==> UnwrapPayload(b).value == b[4..]
    ensures DecodeList(b).Ok? <==> |b| >= 4 && b[1] == 0 && b[0] == 3
  {
    LeTwo(1);
    LeTwo(3);
    if |b| >= 4 {
      FromTwo(b, 0);
    }
  }

  // ---------------------------------------------------------------------------
  // Strings
  // ---------------------------------------------------------------------------

  /** A string value: its length with the terminator, its octets, the terminator. */
  function StringValue(s: seq<byte>): seq<byte> {
    Le((|s| + 1) % TWO_32, 4) + s + [0]
  }

  function DecodeString(b: seq<byte>): Result<seq<byte>, DecodeError> {
    if |b| < 4 then Err(Truncated(4, |b|))
    else
      var n := U32At(b, 0);
      if |b| < 4 + n then Err(Truncated(4 + n, |b|))
      else if n > 0 && b[4 + n - 1] == 0 then Ok(b[4..4 + n - 1])
      else Ok(b[4..4 + n])
  }

  lemma StringRoundTrip(s: seq<byte>, padding: seq<byte>)
    requires |s| + 1 < TWO_32
    ensures DecodeString(StringValue(s) + padding) == Ok(s)
  {
    var b := StringValue(s) + padding;
    StringSlices(Le(|s| + 1, 4), s, padding);
    U32Written(b, 0, |s| + 1);
  }

  /** Any counted octets: they are the string, less one NUL at their end, whatever follows. */
  lemma CountedString(text: seq<byte>, tail: seq<byte>)
    requires |text| < TWO_32
    ensures DecodeString(Le(|text|, 4) + text + tail)
            == Ok(if text != [] && text[|text| - 1] == 0 then text[..|text| - 1] else text)
  {
    CountedSlices(Le(|text|, 4), text, tail);
    U32Written(Le(|text|, 4) + text + tail, 0, |text|);
  }

  lemma CountedSlices(length: seq<byte>, text: seq<byte>, tail: seq<byte>)
    requires |length| == 4
    ensures var b := length + text + tail;
            && |b| == 4 + |text| + |tail| && b[0..4] == length && b[4..4 + |text|] == text
            && (text != [] ==> b[4 + |text| - 1] == text[|text| - 1] && b[4..4 + |text| - 1] == text[..|text| - 1])
  {
  }

  lemma StringSlices(length: seq<byte>, s: seq<byte>, padding: seq<byte>)
    requires |length| == 4
    ensures var b := length + s + [0] + padding;
            && |b| == 5 + |s| + |padding| && b[0..4] == length && b[4..4 + |s|] == s && b[4 + |s|] == 0
  {
  }
}
