/** Fixed-width integers and the identifiers carried on the wire. */
module Ids {
  import opened Bytes

  const TWO_16: nat := 0x1_0000
  const TWO_32: nat := 0x1_0000_0000
  const TWO_64: nat := 0x1_0000_0000_0000_0000

  type U16 = x: nat | x < TWO_16
  type U32 = x: nat | x < TWO_32
  type U64 = x: nat | x < TWO_64
  type I32 = x: int | -0x8000_0000 <= x < 0x8000_0000

  type EntityId = s: seq<byte> | |s| == 4 witness [0, 0, 0, 0]
  type GuidPrefix = s: seq<byte> | |s| == 12 witness [0, 0, 0, 0, 0, 0, 0, 0, 0, 0, 0, 0]

  const ENTITYID_UNKNOWN: EntityId := [0, 0, 0, 0]
  const ENTITYID_SEDP_PUB_WRITER: EntityId := [0, 0, 3, 0xC2]
  const ENTITYID_SEDP_PUB_READER: EntityId := [0, 0, 3, 0xC7]
  const ENTITYID_SEDP_SUB_WRITER: EntityId := [0, 0, 4, 0xC2]
  const ENTITYID_SEDP_SUB_READER: EntityId := [0, 0, 4, 0xC7]

  datatype Guid = Guid(prefix: GuidPrefix, entity: EntityId)

  /** A writer sequence number, split as on the wire. */
  datatype SequenceNumber = SequenceNumber(high: I32, low: U32) {
    function ToU64(): U64 {
      AsU32(high) * TWO_32 + low
    }
  }

  /** Reinterprets a signed 32-bit value as unsigned, and back. */
  function AsU32(v: I32): U32 {
    if v < 0 then v + TWO_32 else v
  }

  function AsI32(v: U32): I32 {
    if v < 0x8000_0000 then v else v - TWO_32
  }

  function FromU64(v: U64): SequenceNumber {
    SequenceNumber(AsI32(v / TWO_32), v % TWO_32)
  }

  /** Packing loses nothing, in either direction, so the 64-bit bookkeeping never aliases. */
  lemma SequenceNumberRoundTrip(v: U64, n: SequenceNumber)
    ensures FromU64(v).ToU64() == v
    ensures FromU64(n.ToU64()) == n
  {
    assert (AsU32(n.high) * TWO_32 + n.low) / TWO_32 == AsU32(n.high);
  }

  /** The high half counts 2^32 each, and is a signed number only in appearance: all ones is 2^32 - 1. */
  lemma SequenceNumberMeaning(n: SequenceNumber)
    ensures n.high >= 0 ==> n.ToU64() == n.high * 0x1_0000_0000 + n.low
    ensures n.high < 0 ==> n.ToU64() == (n.high + 0x1_0000_0000) * 0x1_0000_0000 + n.low
    ensures forall v: U64 | v < 0x1_0000_0000 :: FromU64(v) == SequenceNumber(0, v)
  {
  }
}
