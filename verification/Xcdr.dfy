/** XCDR1: typed fields, little-endian, each aligned from the start of the buffer (section 10.2 of RTPS 2.3). */
module Xcdr {
  import opened Wrappers
  import opened Bytes
  import opened Ids
  import opened Messages
  import opened Cdr

  const CDR_BE: U16 := 0x0000
  const ENCAP_HEADER_LEN: nat := 4
  const REPLACEMENT_CHARACTER: CodePoint := 0xFFFD

  type Width = n: nat | n == 1 || n == 2 || n == 4 || n == 8 witness 1
  type CodePoint = c: nat | c < 0xD800 || 0xE000 <= c < 0x11_0000

  /** The types of field. A float is its bit pattern, an unsigned integer of width 4 or 8; a string is
      the octets of its text. */
  datatype Kind = KBool | KChar | KInt(width: Width, signed: bool) | KString | KOctets

  datatype Value =
    | BoolValue(b: bool)
    | CharValue(c: CodePoint)
    | IntValue(width: Width, signed: bool, v: int)
    | StringValue(text: seq<byte>)
    | OctetsValue(octets: seq<byte>)
  {
    function KindOf(): Kind {
      match this
      case BoolValue(_) => KBool
      case CharValue(_) => KChar
      case IntValue(w, signed, _) => KInt(w, signed)
      case StringValue(_) => KString
      case OctetsValue(_) => KOctets
    }

    /** The integer is in its type's range, and lengths fit their 32-bit prefix. */
    ghost predicate Fits() {
      match this
      case BoolValue(_) => true
      case CharValue(_) => true
      case IntValue(w, signed, v) => InRange(w, signed, v)
      case StringValue(text) => |text| + 1 < TWO_32
      case OctetsValue(octets) => |octets| < TWO_32
    }

    /** What the decoder makes of the value once written: a character keeps one octet. */
    function ReadBack(): Value {
      match this
      case CharValue(c) => CharValue(if c % 256 < 128 then c % 256 else REPLACEMENT_CHARACTER)
      case _ => this
    }
  }

  // ---------------------------------------------------------------------------
  // Alignment and integers
  // ---------------------------------------------------------------------------

  function Pad(len: nat, n: Width): nat {
    match n
    case 1 => 0
    case 2 => (2 - len % 2) % 2
    case 4 => (4 - len % 4) % 4
    case 8 => (8 - len % 8) % 8
  }

  lemma PadTwo(len: nat)
    ensures Pad(len, 2) < 2 && (len + Pad(len, 2)) % 2 == 0
  {
  }

  lemma PadFour(len: nat)
    ensures Pad(len, 4) < 4 && (len + Pad(len, 4)) % 4 == 0
  {
  }

  lemma PadEight(len: nat)
    ensures Pad(len, 8) < 8 && (len + Pad(len, 8)) % 8 == 0
  {
  }

  /** The padding is the least that ends on a multiple of `n`. */
  lemma PadAligns(len: nat, n: Width)
    ensures Pad(len, n) < n
    ensures (n == 2 ==> (len + Pad(len, n)) % 2 == 0) && (n == 4 ==> (len + Pad(len, n)) % 4 == 0)
    ensures n == 8 ==> (len + Pad(len, n)) % 8 == 0
  {
    PadTwo(len);
    PadFour(len);
    PadEight(len);
  }

  /** Half the number of values of `w` octets. */
  function Half(w: Width): nat {
    match w
    case 1 => 0x80
    case 2 => 0x8000
    case 4 => 0x8000_0000
    case 8 => 0x8000_0000_0000_0000
  }

  lemma HalfRange(w: Width)
    ensures Range(w) == 2 * Half(w)
  {
    Ranges();
  }

  predicate InRange(w: Width, signed: bool, v: int) {
    if signed then 0 <= v + Half(w) < 2 * Half(w) else 0 <= v < 2 * Half(w)
  }

  /** The two's complement bit pattern of `v` in `w` octets, as an unsigned number. */
  function ToBits(w: Width, v: int): nat {
    match w
    case 1 => v % 0x100
    case 2 => v % 0x1_0000
    case 4 => v % 0x1_0000_0000
    case 8 => v % 0x1_0000_0000_0000_0000
  }

  function FromBits(w: Width, signed: bool, u: nat): int {
    if signed && u >= Half(w) then u - 2 * Half(w) else u
  }

  /** Two's complement loses nothing in either direction. */
  lemma BitsRoundTrip(w: Width, signed: bool, v: int, u: nat)
    requires InRange(w, signed, v) && u < 2 * Half(w)
    ensures ToBits(w, v) < 2 * Half(w) && FromBits(w, signed, ToBits(w, v)) == v
    ensures InRange(w, signed, FromBits(w, signed, u)) && ToBits(w, FromBits(w, signed, u)) == u
  {
  }

  // ---------------------------------------------------------------------------
  // Encoding
  // ---------------------------------------------------------------------------

  const XCDR_HEADER: seq<byte> := Le(CDR_LE, 2) + [0, 0]

  /** `u` in `w` octets at the next aligned position after `len` octets. */
  function Word(len: nat, w: Width, u: nat): seq<byte> {
    Zeros(Pad(len, w)) + Le(u, w)
  }

  /** What writing `v` appends to a buffer of `len` octets. */
  function EncodeField(len: nat, v: Value): seq<byte> {
    match v
    case BoolValue(b) => [if b then 1 else 0]
    case CharValue(c) => [(c % 256) as byte]
    case IntValue(w, _, i) => Word(len, w, ToBits(w, i))
    case StringValue(text) => Word(len, 4, (|text| + 1) % TWO_32) + (text + [0])
    case OctetsValue(octets) => Word(len, 4, |octets| % TWO_32) + octets
  }

  /** The buffer after writing the fields in turn. */
  function Encoded(vs: seq<Value>): seq<byte> {
    if vs == [] then XCDR_HEADER
    else
      var before := Encoded(vs[..|vs| - 1]);
      before + EncodeField(|before|, vs[|vs| - 1])
  }

  lemma Assoc(a: seq<byte>, b: seq<byte>, c: seq<byte>)
    ensures a + b + c == a + (b + c)
  {
  }

  lemma Regroup(a: seq<byte>, b: seq<byte>, c: seq<byte>, d: seq<byte>, e: seq<byte>)
    ensures a + b + c + d + e == a + ((b + c) + (d + e))
  {
  }

  class XcdrEncoder {
    var buf: seq<byte>

    constructor ()
      ensures buf == Encoded([])
    {
      buf := Le(CDR_LE, 2) + [0, 0];
    }

    method Align(n: Width)
      modifies this
      ensures buf == old(buf) + Zeros(Pad(|old(buf)|, n))
    {
      var pad := Pad(|buf|, n);
      buf := buf + seq(pad, _ => 0);
    }

    method WriteBool(v: bool)
      modifies this
      ensures buf == old(buf) + EncodeField(|old(buf)|, BoolValue(v))
    {
      buf := buf + [if v then 1 else 0];
    }

    method WriteChar(c: CodePoint)
      modifies this
      ensures buf == old(buf) + EncodeField(|old(buf)|, CharValue(c))
    {
      buf := buf + [(c % 256) as byte];
    }

    /** The integers and floats, of every width. */
    method WriteInt(w: Width, signed: bool, v: int)
      requires InRange(w, signed, v)
      modifies this
      ensures buf == old(buf) + EncodeField(|old(buf)|, IntValue(w, signed, v))
    {
      ghost var before := buf;
      Align(w);
      buf := buf + Le(ToBits(w, v), w);
      Assoc(before, Zeros(Pad(|before|, w)), Le(ToBits(w, v), w));
    }

    method WriteString(text: seq<byte>)
      modifies this
      ensures buf == old(buf) + EncodeField(|old(buf)|, StringValue(text))
    {
      ghost var before := buf;
      Align(4);
      ghost var zeros := Zeros(Pad(|before|, 4));
      ghost var prefix := Le((|text| + 1) % TWO_32, 4);
      buf := buf + Le((|text| + 1) % TWO_32, 4);
      buf := buf + text;
      buf := buf + [0];
      Regroup(before, zeros, prefix, text, [0]);
    }

    method WriteBytesSeq(octets: seq<byte>)
      modifies this
      ensures buf == old(buf) + EncodeField(|old(buf)|, OctetsValue(octets))
    {
      Align(4);
      buf := buf + Le(|octets| % TWO_32, 4);
      buf := buf + octets;
    }
  }

  // ---------------------------------------------------------------------------
  // Decoding
  // ---------------------------------------------------------------------------

  /** Reads `w` octets at the next aligned position, and says where the cursor ends. A short buffer
      leaves the cursor aligned, possibly past the end. */
  function ReadWord(w: Width, buf: seq<byte>, pos: nat): (Result<nat, DecodeError>, nat) {
    var p := pos + Pad(pos, w);
    if p + w > |buf| then (Err(Truncated(p + w, |buf|)), p) else (Ok(FromLe(buf[p..p + w])), p + w)
  }

  function DropNul(raw: seq<byte>): seq<byte> {
    if raw != [] && raw[|raw| - 1] == 0 then raw[..|raw| - 1] else raw
  }

  function DecodeField(k: Kind, buf: seq<byte>, pos: nat): (Result<Value, DecodeError>, nat) {
    match k
    case KBool =>
      if pos + 1 > |buf| then (Err(Truncated(pos + 1, |buf|)), pos) else (Ok(BoolValue(buf[pos] != 0)), pos + 1)
    case KChar =>
      if pos + 1 > |buf| then (Err(Truncated(pos + 1, |buf|)), pos)
      else (Ok(CharValue(if buf[pos] < 128 then buf[pos] as nat else REPLACEMENT_CHARACTER)), pos + 1)
    case KInt(w, signed) =>
      (match ReadWord(w, buf, pos)
       case (Err(e), p) => (Err(e), p)
       case (Ok(u), p) => (Ok(IntValue(w, signed, FromBits(w, signed, u))), p))
    case KString =>
      (match ReadWord(4, buf, pos)
       case (Err(e), p) => (Err(e), p)
       case (Ok(n), p) =>
         if n == 0 then (Ok(StringValue([])), p)
         else if p + n > |buf| then (Err(Truncated(p + n, |buf|)), p)
         else (Ok(StringValue(DropNul(buf[p..p + n]))), p + n))
    case KOctets =>
      (match ReadWord(4, buf, pos)
       case (Err(e), p) => (Err(e), p)
       case (Ok(n), p) =>
         if p + n > |buf| then (Err(Truncated(p + n, |buf|)), p) else (Ok(OctetsValue(buf[p..p + n])), p + n))
  }

  /** Reading a field of kind `k` at `pos` succeeds with `v` and leaves the cursor at `end`. */
  ghost predicate Reads(k: Kind, buf: seq<byte>, pos: nat, v: Value, end: nat) {
    DecodeField(k, buf, pos).0 == Ok(v) && DecodeField(k, buf, pos).1 == end
  }

  /** Reading fields of the given kinds in turn, from `pos`. */
  function DecodeFields(kinds: seq<Kind>, buf: seq<byte>, pos: nat): (Result<seq<Value>, DecodeError>, nat) {
    if kinds == [] then (Ok([]), pos)
    else
      match DecodeFields(kinds[..|kinds| - 1], buf, pos)
      case (Err(e), p) => (Err(e), p)
      case (Ok(vs), p) =>
        match DecodeField(kinds[|kinds| - 1], buf, p)
        case (Err(e), q) => (Err(e), q)
        case (Ok(v), q) => (Ok(vs + [v]), q)
  }

  function CheckHeader(buf: seq<byte>): Option<DecodeError> {
    if |buf| < ENCAP_HEADER_LEN then Some(Truncated(ENCAP_HEADER_LEN, |buf|))
    else if U16At(buf, 0) != CDR_LE && U16At(buf, 0) != CDR_BE then Some(InvalidCdrScheme(U16At(buf, 0)))
    else None
  }

  class XcdrDecoder {
    const buf: seq<byte>
    var pos: nat

    constructor (buf: seq<byte>)
      requires CheckHeader(buf).None?
      ensures this.buf == buf && pos == ENCAP_HEADER_LEN
    {
      this.buf := buf;
      pos := ENCAP_HEADER_LEN;
    }

    static method Open(buf: seq<byte>) returns (d: Result<XcdrDecoder, DecodeError>)
      ensures match CheckHeader(buf)
              case Some(e) => d == Err(e)
              case None => d.Ok? && fresh(d.value) && d.value.buf == buf && d.value.pos == ENCAP_HEADER_LEN
    {
      if |buf| < ENCAP_HEADER_LEN {
        return Err(Truncated(ENCAP_HEADER_LEN, |buf|));
      }
      var scheme := U16At(buf, 0);
      if scheme != CDR_LE && scheme != CDR_BE {
        return Err(InvalidCdrScheme(scheme));
      }
      var decoder := new XcdrDecoder(buf);
      return Ok(decoder);
    }

    method Align(n: Width)
      modifies this
      ensures pos == old(pos) + Pad(old(pos), n)
    {
      var pad := Pad(pos, n);
      pos := pos + pad;
    }

    method Need(n: nat) returns (short: Option<DecodeError>)
      ensures short == if pos + n > |buf| then Some(Truncated(pos + n, |buf|)) else None
    {
      if pos + n > |buf| {
        return Some(Truncated(pos + n, |buf|));
      }
      return None;
    }

    method ReadBool() returns (r: Result<Value, DecodeError>)
      modifies this
      ensures (r, pos) == DecodeField(KBool, buf, old(pos))
    {
      var short := Need(1);
      if short.Some? {
        return Err(short.value);
      }
      var v := buf[pos] != 0;
      pos := pos + 1;
      return Ok(BoolValue(v));
    }

    method ReadChar() returns (r: Result<Value, DecodeError>)
      modifies this
      ensures (r, pos) == DecodeField(KChar, buf, old(pos))
    {
      var short := Need(1);
      if short.Some? {
        return Err(short.value);
      }
      var v := buf[pos];
      pos := pos + 1;
      return Ok(CharValue(if v < 128 then v as nat else REPLACEMENT_CHARACTER));
    }

    method ReadUnsigned(w: Width) returns (r: Result<nat, DecodeError>)
      modifies this
      ensures (r, pos) == ReadWord(w, buf, old(pos))
    {
      Align(w);
      var short := Need(w);
      if short.Some? {
        return Err(short.value);
      }
      var u := FromLe(buf[pos..pos + w]);
      pos := pos + w;
      return Ok(u);
    }

    method ReadInt(w: Width, signed: bool) returns (r: Result<Value, DecodeError>)
      modifies this
      ensures (r, pos) == DecodeField(KInt(w, signed), buf, old(pos))
    {
      var u := ReadUnsigned(w);
      if u.Err? {
        return Err(u.error);
      }
      return Ok(IntValue(w, signed, FromBits(w, signed, u.value)));
    }

    method ReadString() returns (r: Result<Value, DecodeError>)
      modifies this
      ensures (r, pos) == DecodeField(KString, buf, old(pos))
    {
      var n := ReadUnsigned(4);
      if n.Err? {
        return Err(n.error);
      }
      if n.value == 0 {
        return Ok(StringValue([]));
      }
      var short := Need(n.value);
      if short.Some? {
        return Err(short.value);
      }
      var raw := buf[pos..pos + n.value];
      pos := pos + n.value;
      if raw[|raw| - 1] == 0 {
        raw := raw[..|raw| - 1];
      }
      return Ok(StringValue(raw));
    }

    method ReadBytesSeq() returns (r: Result<Value, DecodeError>)
      modifies this
      ensures (r, pos) == DecodeField(KOctets, buf, old(pos))
    {
      var n := ReadUnsigned(4);
      if n.Err? {
        return Err(n.error);
      }
      var short := Need(n.value);
      if short.Some? {
        return Err(short.value);
      }
      var out := buf[pos..pos + n.value];
      pos := pos + n.value;
      return Ok(OctetsValue(out));
    }

    /** Undecoded octets. A cursor past the end makes the subtraction underflow. */
    method Remaining() returns (n: nat)
      requires pos <= |buf|
      ensures n == |buf| - pos
    {
      return |buf| - pos;
    }
  }

  // ---------------------------------------------------------------------------
  // Round trip
  // ---------------------------------------------------------------------------

  lemma SliceAt(before: seq<byte>, zeros: seq<byte>, word: seq<byte>, tail: seq<byte>)
    ensures before + (zeros + word) + tail == before + zeros + word + tail
    ensures (before + zeros + word + tail)[|before| + |zeros|..|before| + |zeros| + |word|] == word
  {
  }

  lemma WordReadBack(before: seq<byte>, w: Width, u: nat, tail: seq<byte>)
    requires u < Range(w)
    ensures ReadWord(w, before + Word(|before|, w, u) + tail, |before|) == (Ok(u), |before| + |Word(|before|, w, u)|)
  {
    SliceAt(before, Zeros(Pad(|before|, w)), Le(u, w), tail);
    LeRoundTrip(u, w);
  }

  lemma StringAt(buf: seq<byte>, pos: nat, p: nat, text: seq<byte>)
    requires ReadWord(4, buf, pos) == (Ok(|text| + 1), p)
    requires p + |text| + 1 <= |buf| && buf[p..p + |text| + 1] == text + [0]
    ensures Reads(KString, buf, pos, StringValue(text), p + |text| + 1)
  {
    assert DropNul(text + [0]) == text;
  }

  lemma Between(a: seq<byte>, b: seq<byte>, c: seq<byte>, d: seq<byte>)
    ensures a + (b + c) + d == a + b + (c + d)
    ensures (a + b + (c + d))[|a| + |b|..|a| + |b| + |c|] == c
  {
  }

  /** A length-prefixed field behind its length word. */
  lemma PrefixReadBack(before: seq<byte>, w: Width, n: nat, content: seq<byte>, tail: seq<byte>)
    requires n < Range(w)
    ensures var word := Word(|before|, w, n);
            var buf := before + (word + content) + tail;
            var p := |before| + |word|;
            && ReadWord(w, buf, |before|) == (Ok(n), p)
            && p + |content| <= |buf| && buf[p..p + |content|] == content
  {
    var word := Word(|before|, w, n);
    WordReadBack(before, w, n, content + tail);
    Between(before, word, content, tail);
  }

  lemma StringReadBack(before: seq<byte>, word: seq<byte>, text: seq<byte>, tail: seq<byte>)
    requires |text| + 1 < TWO_32 && word == Word(|before|, 4, |text| + 1)
    ensures Reads(KString, before + (word + (text + [0])) + tail, |before|,
                  StringValue(text), |before| + |word| + |text| + 1)
  {
    Ranges();
    PrefixReadBack(before, 4, |text| + 1, text + [0], tail);
    StringAt(before + (word + (text + [0])) + tail, |before|, |before| + |word|, text);
  }

  lemma BoolReadBack(before: seq<byte>, b: bool, tail: seq<byte>)
    ensures Reads(KBool, before + [if b then 1 else 0] + tail, |before|, BoolValue(b), |before| + 1)
  {
    assert (before + [if b then 1 else 0] + tail)[|before|] == if b then 1 else 0;
  }

  lemma CharReadBack(before: seq<byte>, c: CodePoint, b: byte, tail: seq<byte>)
    requires b as nat == c % 256
    ensures Reads(KChar, before + [b] + tail, |before|, CharValue(c).ReadBack(), |before| + 1)
  {
    assert (before + [b] + tail)[|before|] == b;
  }

  lemma IntReadBack(before: seq<byte>, word: seq<byte>, w: Width, signed: bool, i: int, tail: seq<byte>)
    requires InRange(w, signed, i) && word == Word(|before|, w, ToBits(w, i))
    ensures Reads(KInt(w, signed), before + word + tail, |before|, IntValue(w, signed, i), |before| + |word|)
  {
    BitsRoundTrip(w, signed, i, 0);
    HalfRange(w);
    WordReadBack(before, w, ToBits(w, i), tail);
  }

  lemma OctetsReadBack(before: seq<byte>, word: seq<byte>, octets: seq<byte>, tail: seq<byte>)
    requires |octets| < TWO_32 && word == Word(|before|, 4, |octets|)
    ensures Reads(KOctets, before + (word + octets) + tail, |before|,
                  OctetsValue(octets), |before| + |word| + |octets|)
  {
    Ranges();
    PrefixReadBack(before, 4, |octets|, octets, tail);
  }

  /** One field, anywhere in a buffer: the decoder reads it back and stops right behind it. */
  lemma FieldReadBack(before: seq<byte>, v: Value, tail: seq<byte>)
    requires v.Fits()
    ensures Reads(v.KindOf(), before + EncodeField(|before|, v) + tail, |before|,
                  v.ReadBack(), |before| + |EncodeField(|before|, v)|)
  {
    match v
    case BoolValue(b) => BoolReadBack(before, b, tail);
    case CharValue(c) => CharReadBack(before, c, (c % 256) as byte, tail);
    case IntValue(w, signed, i) => IntReadBack(before, Word(|before|, w, ToBits(w, i)), w, signed, i, tail);
    case StringValue(text) =>
      assert (|text| + 1) % TWO_32 == |text| + 1;
      StringReadBack(before, Word(|before|, 4, |text| + 1), text, tail);
    case OctetsValue(octets) =>
      assert |octets| % TWO_32 == |octets|;
      OctetsReadBack(before, Word(|before|, 4, |octets|), octets, tail);
  }

  function Kinds(vs: seq<Value>): (ks: seq<Kind>)
    ensures |ks| == |vs|
  {
    if vs == [] then [] else Kinds(vs[..|vs| - 1]) + [vs[|vs| - 1].KindOf()]
  }

  function ReadBacks(vs: seq<Value>): (r: seq<Value>)
    ensures |r| == |vs| && forall i | 0 <= i < |vs| :: r[i] == vs[i].ReadBack()
  {
    if vs == [] then [] else ReadBacks(vs[..|vs| - 1]) + [vs[|vs| - 1].ReadBack()]
  }

  lemma EncodedOpens(vs: seq<Value>, tail: seq<byte>)
    ensures |Encoded(vs)| >= ENCAP_HEADER_LEN && Encoded(vs)[..4] == XCDR_HEADER
    ensures CheckHeader(Encoded(vs) + tail).None?
  {
    if vs != [] {
      EncodedOpens(vs[..|vs| - 1], []);
    }
    assert (Encoded(vs) + tail)[..4] == XCDR_HEADER;
    assert (Encoded(vs) + tail)[0..2] == XCDR_HEADER[0..2] == Le(CDR_LE, 2);
    U16Written(Encoded(vs) + tail, 0, CDR_LE);
  }

  /** Decoding with the kinds of `vs` gives them as read back and leaves the cursor at `end`. */
  ghost predicate ReadsBack(vs: seq<Value>, buf: seq<byte>, end: nat) {
    && DecodeFields(Kinds(vs), buf, ENCAP_HEADER_LEN).0 == Ok(ReadBacks(vs))
    && DecodeFields(Kinds(vs), buf, ENCAP_HEADER_LEN).1 == end
  }

  lemma ReadsBackNext(vs: seq<Value>, v: Value, buf: seq<byte>, p: nat, q: nat)
    requires ReadsBack(vs, buf, p) && Reads(v.KindOf(), buf, p, v.ReadBack(), q)
    ensures ReadsBack(vs + [v], buf, q)
  {
    assert (vs + [v])[..|vs|] == vs;
    assert Kinds(vs + [v])[..|vs|] == Kinds(vs);
  }

  lemma EncodedNext(vs: seq<Value>, v: Value)
    ensures Encoded(vs + [v]) == Encoded(vs) + EncodeField(|Encoded(vs)|, v)
  {
    assert (vs + [v])[..|vs|] == vs;
  }

  /** Any list of fields: decoding with the same kinds consumes exactly the encoding, whatever follows
      it, so encoder length and decoder cursor agree before every field. */
  lemma {:induction false} FieldsReadBack(vs: seq<Value>, tail: seq<byte>)
    requires forall i | 0 <= i < |vs| :: vs[i].Fits()
    ensures ReadsBack(vs, Encoded(vs) + tail, |Encoded(vs)|)
    decreases |vs|, 1
  {
    if vs != [] {
      var init, v := vs[..|vs| - 1], vs[|vs| - 1];
      assert vs == init + [v];
      EncodedNext(init, v);
      FieldsReadBackNext(init, v, Encoded(init), EncodeField(|Encoded(init)|, v), tail);
    }
  }

  lemma FieldsReadBackNext(init: seq<Value>, v: Value, before: seq<byte>, field: seq<byte>, tail: seq<byte>)
    requires (forall i | 0 <= i < |init| :: init[i].Fits()) && v.Fits()
    requires before == Encoded(init) && field == EncodeField(|before|, v)
    ensures ReadsBack(init + [v], before + field + tail, |before| + |field|)
    decreases |init| + 1, 0
  {
    Assoc(before, field, tail);
    FieldsReadBack(init, field + tail);
    FieldReadBack(before, v, tail);
    ReadsBackNext(init, v, before + field + tail, |before|, |before| + |field|);
  }

  predicate Faithful(v: Value) {
    v.CharValue? ==> v.c < 128 || v.c == 0xFFFD
  }

  /** The list comes back unchanged exactly when every character in it is ASCII, or the replacement
      character itself. */
  lemma FieldsRoundTripIff(vs: seq<Value>, tail: seq<byte>)
    requires forall i | 0 <= i < |vs| :: vs[i].Fits()
    ensures DecodeFields(Kinds(vs), Encoded(vs) + tail, ENCAP_HEADER_LEN).1 == |Encoded(vs)|
    ensures DecodeFields(Kinds(vs), Encoded(vs) + tail, ENCAP_HEADER_LEN).0 == Ok(vs)
            <==> forall i | 0 <= i < |vs| :: Faithful(vs[i])
  {
    FieldsReadBack(vs, tail);
    FaithfulIff(vs);
  }

  lemma FaithfulIff(vs: seq<Value>)
    ensures ReadBacks(vs) == vs <==> forall i | 0 <= i < |vs| :: Faithful(vs[i])
  {
    forall i | 0 <= i < |vs|
      ensures ReadBacks(vs)[i] == vs[i] <==> Faithful(vs[i])
    {
      FaithfulOne(vs[i]);
    }
  }

  lemma FaithfulOne(v: Value)
    ensures v.ReadBack() == v <==> Faithful(v)
  {
    if v.CharValue? && v.c == REPLACEMENT_CHARACTER {
      assert v.c % 256 == 0xFD;
    }
  }

  /** On arbitrary octets the cursor only moves forward, and a successful read ends inside the buffer. */
  lemma {:induction false} DecodeStaysInside(kinds: seq<Kind>, buf: seq<byte>, pos: nat)
    requires pos <= |buf|
    ensures var (r, p) := DecodeFields(kinds, buf, pos); pos <= p < |buf| + 8 && (r.Ok? ==> p <= |buf| && |r.value| == |kinds|)
  {
    if kinds != [] {
      DecodeStaysInside(kinds[..|kinds| - 1], buf, pos);
      var (r, p) := DecodeFields(kinds[..|kinds| - 1], buf, pos);
      if kinds[|kinds| - 1].KInt? {
        PadAligns(p, kinds[|kinds| - 1].width);
      }
      PadAligns(p, 4);
    }
  }

  /** The alignment of a field's first word. */
  function AlignmentOf(k: Kind): Width {
    match k
    case KBool => 1
    case KChar => 1
    case KInt(w, _) => w
    case KString => 4
    case KOctets => 4
  }

  /** A read may leave the cursor past the end, where `Remaining` may not be called: exactly when the
      padding of the field alone overruns the buffer, and then the read has failed. */
  lemma FailedReadOverrunsIff(k: Kind, buf: seq<byte>, pos: nat)
    requires pos <= |buf|
    ensures DecodeField(k, buf, pos).1 > |buf| <==> pos + Pad(pos, AlignmentOf(k)) > |buf|
    ensures DecodeField(k, buf, pos).1 > |buf| ==> DecodeField(k, buf, pos).0.Err?
  {
  }

  /** When decoding a list fails, it is at some field, with all before it read, and the cursor ends past
      the end exactly when that field's padding overruns the buffer. */
  lemma {:induction false} FailedListOverrunsIff(kinds: seq<Kind>, buf: seq<byte>, pos: nat) returns (i: nat, p: nat)
    requires pos <= |buf| && DecodeFields(kinds, buf, pos).0.Err?
    ensures i < |kinds| && DecodeFields(kinds[..i], buf, pos).0.Ok? && DecodeFields(kinds[..i], buf, pos).1 == p <= |buf|
    ensures DecodeField(kinds[i], buf, p).0.Err?
    ensures DecodeFields(kinds, buf, pos).1 > |buf| <==> p + Pad(p, AlignmentOf(kinds[i])) > |buf|
  {
    var n := |kinds| - 1;
    var init := kinds[..n];
    if DecodeFields(init, buf, pos).0.Err? {
      i, p := FailedListOverrunsIff(init, buf, pos);
      assert init[..i] == kinds[..i];
    } else {
      i, p := n, DecodeFields(init, buf, pos).1;
      DecodeStaysInside(init, buf, pos);
      FailedReadOverrunsIff(kinds[n], buf, p);
    }
  }

  /** It happens for integers, strings and octet sequences alike. */
  lemma FailedReadsOverrun()
    ensures var buf: seq<byte> := [0, 0, 0, 0, 7];
            forall k: Kind | k in {KInt(4, false), KString, KOctets} :: DecodeField(k, buf, 5).1 == 8
  {
  }

  // ---------------------------------------------------------------------------
  // The octets themselves
  // ---------------------------------------------------------------------------

  /** Little-endian is written; either byte order is accepted on the header. */
  lemma HeadersAccepted(buf: seq<byte>)
    ensures Encoded([]) == [1, 0, 0, 0]
    ensures CheckHeader(buf).None? <==> |buf| >= 4 && buf[1] == 0 && (buf[0] == 0 || buf[0] == 1)
  {
    LeTwo(1);
    if |buf| >= 4 {
      FromTwo(buf, 0);
    }
  }

  /** A bool is one octet, 1 or 0, and any octet but 0 is read as true; a character above ASCII is read as
      U+FFFD. */
  lemma OneOctetFields(len: nat, b: bool, buf: seq<byte>, pos: nat)
    ensures EncodeField(len, BoolValue(b)) == [if b then 1 else 0]
    ensures pos < |buf| ==>
              && Reads(KBool, buf, pos, BoolValue(buf[pos] != 0), pos + 1)
              && Reads(KChar, buf, pos, CharValue(if buf[pos] < 128 then buf[pos] as nat else 0xFFFD), pos + 1)
  {
  }

  /** A negative number is written as its two's complement. */
  lemma NegativeBits(w: Width, v: int)
    requires InRange(w, true, v)
    ensures ToBits(w, v) == if v < 0 then v + Range(w) else v
  {
    HalfRange(w);
  }

  lemma CountedSlice(zeros: seq<byte>, count: seq<byte>, content: seq<byte>)
    requires |count| == 4
    ensures var f, p := zeros + count + content, |zeros|;
            |f| == p + 4 + |content| && f[p..p + 4] == count && f[p + 4..] == content
  {
  }

  /** Strings are counted with their NUL and end in it. */
  lemma StringLayout(zeros: seq<byte>, len: nat, text: seq<byte>)
    requires |text| + 1 < TWO_32 && zeros == Zeros(Pad(len, 4))
    ensures var f, p := EncodeField(len, StringValue(text)), |zeros|;
            && |f| == p + 5 + |text| && f[..p] == zeros
            && U32At(f, p) == |text| + 1 && f[p + 4..] == text + [0]
  {
    var count := Le((|text| + 1) % TWO_32, 4);
    CountedSlice(zeros, count, text + [0]);
    U32Written(zeros + count + (text + [0]), |zeros|, |text| + 1);
  }

  /** Octet sequences are counted as they are. */
  lemma OctetsLayout(zeros: seq<byte>, len: nat, octets: seq<byte>)
    requires |octets| < TWO_32 && zeros == Zeros(Pad(len, 4))
    ensures var f, p := EncodeField(len, OctetsValue(octets)), |zeros|;
            && |f| == p + 4 + |octets| && f[..p] == zeros
            && U32At(f, p) == |octets| && f[p + 4..] == octets
  {
    assert |octets| % TWO_32 == |octets|;
    var count := Le(|octets|, 4);
    CountedSlice(zeros, count, octets);
    U32Written(zeros + count + octets, |zeros|, |octets|);
  }

  /** A counted string without NUL at its end is read whole, an empty count as the empty string. */
  lemma UnterminatedString(before: seq<byte>, text: seq<byte>, tail: seq<byte>)
    requires |text| < TWO_32 && (text == [] || text[|text| - 1] != 0)
    ensures Reads(KString, before + (Word(|before|, 4, |text|) + text) + tail, |before|,
                  StringValue(text), |before| + |Word(|before|, 4, |text|)| + |text|)
  {
    Ranges();
    PrefixReadBack(before, 4, |text|, text, tail);
  }
}
