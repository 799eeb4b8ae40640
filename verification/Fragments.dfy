/** DATA_FRAG: splitting a large sample, and putting it back together from fragments in any order. */
module Fragments {
  import opened Wrappers
  import opened Bytes
  import opened Ids

  const MAX_FRAGMENT_PAYLOAD: nat := 1200
  const MAX_REASSEMBLY_BYTES: nat := 16 * 1024 * 1024
  const STALE_FRAG_AGE: nat := 5_000_000_000 // nanoseconds

  /** `start` is the 1-based number of the first of the `count` fragments carried, `size` the stride. */
  datatype DataFrag = DataFrag(
    writer: EntityId, reader: EntityId, sn: SequenceNumber,
    start: U32, count: U16, size: U16, dataSize: U32, payload: seq<byte>)

  // ---------------------------------------------------------------------------
  // Splitting
  // ---------------------------------------------------------------------------

  /** The stride really used: zero means the default, and the cast keeps 16 bits. */
  function Stride(max: nat): U16 {
    (if max == 0 then MAX_FRAGMENT_PAYLOAD else max) % TWO_16
  }

  /** How many fragments of `size` octets cover `n` octets. */
  function FragCount(n: nat, size: nat): nat
    requires size > 0
  {
    (n + size - 1) / size
  }

  function Chunk(payload: seq<byte>, size: nat, k: nat): seq<byte>
    requires k * size <= |payload|
  {
    payload[k * size..Min(k * size + size, |payload|)]
  }

  function FragAt(w: EntityId, sn: SequenceNumber, payload: seq<byte>, size: U16, k: nat): DataFrag
    requires k * size <= |payload| && k + 1 < TWO_32
  {
    DataFrag(w, ENTITYID_UNKNOWN, sn, k + 1, 1, size, |payload| % TWO_32, Chunk(payload, size, k))
  }

  lemma CountMeaning(n: nat, size: nat, k: nat)
    requires size > 0
    ensures k < FragCount(n, size) <==> k * size < n
  {
    var c := FragCount(n, size);
    assert c * size <= n + size - 1 < c * size + size;
    if k < c {
      assert k * size <= (c - 1) * size;
    } else {
      assert c * size <= k * size;
    }
  }

  method SplitIntoFragmentsN(w: EntityId, sn: SequenceNumber, payload: seq<byte>, max: nat)
    returns (frags: seq<DataFrag>)
    requires Stride(max) > 0 || payload == [] // a stride cast to 0 never advances
    requires |payload| + 1 < TWO_32 // the 32-bit fragment number does not overflow
    ensures payload == [] ==> frags == []
    ensures payload != [] ==>
              && |frags| == FragCount(|payload|, Stride(max))
              && forall k | 0 <= k < |frags| ::
                k * Stride(max) < |payload| && frags[k] == FragAt(w, sn, payload, Stride(max), k)
  {
    var size := Stride(max);
    var total := |payload|;
    frags := [];
    var offset := 0;
    var fragNum := 1;
    while offset < total
      invariant offset == Min(|frags| * size, total) && fragNum == |frags| + 1 && fragNum <= offset + 1
      invariant forall k | 0 <= k < |frags| :: k * size < total && frags[k] == FragAt(w, sn, payload, size, k)
      decreases total - offset
    {
      var end := Min(offset + size, total);
      assert offset == |frags| * size;
      frags := frags + [DataFrag(w, ENTITYID_UNKNOWN, sn, fragNum, 1, size, total % TWO_32, payload[offset..end])];
      assert |frags| * size == (|frags| - 1) * size + size;
      offset := end;
      fragNum := fragNum + 1;
    }
    if payload != [] {
      CountMeaning(total, size, |frags|);
      CountMeaning(total, size, |frags| - 1);
    }
  }

  /** The offset of the splitting loop after `n` turns. */
  function OffsetAfter(total: nat, size: nat, n: nat): nat {
    if n == 0 then 0 else Min(OffsetAfter(total, size, n - 1) + size, total)
  }

  lemma {:induction false} OffsetMoves(total: nat, size: nat, n: nat)
    ensures size == 0 ==> OffsetAfter(total, size, n) == 0
    ensures size > 0 ==> OffsetAfter(total, size, n) >= Min(n, total)
  {
    if n > 0 {
      OffsetMoves(total, size, n - 1);
    }
  }

  /** The splitting loop ends exactly when there is nothing to split or the cast of the stride to 16
      bits does not yield zero. */
  lemma SplitEndsIff(total: nat, max: nat)
    ensures (exists n: nat :: OffsetAfter(total, Stride(max), n) >= total)
            <==> total == 0 || max == 0 || max % TWO_16 != 0
    ensures Stride(0) == 1200 && (0 < max < 0x1_0000 ==> Stride(max) == max)
  {
    assert Stride(max) == 0 <==> max != 0 && max % TWO_16 == 0;
    if total == 0 {
      assert OffsetAfter(total, Stride(max), 0) >= total;
    } else if Stride(max) > 0 {
      OffsetMoves(total, Stride(max), total);
      assert OffsetAfter(total, Stride(max), total) >= total;
    } else {
      forall n: nat
        ensures OffsetAfter(total, Stride(max), n) < total
      {
        OffsetMoves(total, Stride(max), n);
      }
    }
  }

  // ---------------------------------------------------------------------------
  // Reassembly, as a function
  // ---------------------------------------------------------------------------

  /** Reassemblies are told apart by writer entity and the low half of the sequence number only. */
  datatype FragKey = FragKey(writer: EntityId, low: U32)

  function KeyOf(f: DataFrag): FragKey {
    FragKey(f.writer, f.sn.low)
  }

  datatype Buffer = Buffer(data: seq<byte>, received: nat, indices: set<nat>, total: nat, created: nat)

  type Buffers = map<FragKey, Buffer>

  function Sweep(buffers: Buffers, now: nat): Buffers {
    map k | k in buffers && now - buffers[k].created <= STALE_FRAG_AGE :: buffers[k]
  }

  /** 0-based index of the i-th fragment carried; 32-bit arithmetic wraps. */
  function IndexAt(f: DataFrag, i: nat): U32 {
    ((f.start + TWO_32 - 1) + i) % TWO_32
  }

  function OffsetAt(f: DataFrag, i: nat): U32 {
    (IndexAt(f, i) * f.size) % TWO_32
  }

  /** The octets of the i-th fragment carried, or nothing when the payload ends before they start. */
  function ChunkAt(f: DataFrag, i: nat): Option<seq<byte>> {
    var fragStart := i * f.size;
    var fragEnd := Min(fragStart + f.size, |f.payload| % TWO_32);
    if fragEnd < fragStart then None else Some(f.payload[fragStart..fragEnd])
  }

  /** Where copying ends: with all fragments dealt with, or at a panic of the slice copy. */
  datatype Copy = Copy(fb: Buffer, panicked: bool)

  /** The i-th fragment carried does not fit where it belongs: the copy between slices panics. */
  predicate Misfits(fb: Buffer, f: DataFrag, i: nat) {
    && IndexAt(f, i) !in fb.indices && ChunkAt(f, i).Some?
    && OffsetAt(f, i) + |ChunkAt(f, i).value| > Min(f.dataSize, |fb.data|)
  }

  /** Copies the fragments `i..` into the buffer. */
  function CopyFrom(fb: Buffer, f: DataFrag, i: nat): Copy
    decreases f.count - i
  {
    if i >= f.count || OffsetAt(f, i) >= f.dataSize then Copy(fb, false)
    else if IndexAt(f, i) in fb.indices || ChunkAt(f, i).None? then CopyFrom(fb, f, i + 1)
    else if Misfits(fb, f, i) then Copy(fb, true)
    else CopyFrom(Place(fb, IndexAt(f, i), OffsetAt(f, i), ChunkAt(f, i).value), f, i + 1)
  }

  function Place(fb: Buffer, idx: nat, offset: nat, chunk: seq<byte>): Buffer
    requires offset + |chunk| <= |fb.data|
  {
    fb.(data := fb.data[..offset] + chunk + fb.data[offset + |chunk|..],
        received := fb.received + 1, indices := fb.indices + {idx})
  }

  function Rejected(f: DataFrag): bool {
    f.size == 0 || f.dataSize == 0 || f.count == 0 || f.dataSize > MAX_REASSEMBLY_BYTES
  }

  function BufferFor(buffers: Buffers, f: DataFrag, now: nat): Buffer
    requires !Rejected(f)
  {
    if KeyOf(f) in buffers then buffers[KeyOf(f)]
    else Buffer(seq(f.dataSize, _ => 0), 0, {}, FragCount(f.dataSize, f.size), now)
  }

  /** The buffers after a fragment, and the sample it completed, if any. After a panic the next caller
      takes the buffers over from the poisoned lock as they are. */
  datatype Reception = Reception(buffers: Buffers, sample: Option<seq<byte>>, panicked: bool)

  /** What happens when `f` arrives at time `now`. */
  function Received(buffers: Buffers, f: DataFrag, now: nat): Reception {
    if Rejected(f) then Reception(buffers, None, false)
    else
      var swept := Sweep(buffers, now);
      var copy := CopyFrom(BufferFor(swept, f, now), f, 0);
      if copy.panicked then Reception(swept[KeyOf(f) := copy.fb], None, true)
      else if copy.fb.received >= copy.fb.total then Reception(swept - {KeyOf(f)}, Some(copy.fb.data), false)
      else Reception(swept[KeyOf(f) := copy.fb], None, false)
  }

  // ---------------------------------------------------------------------------
  // Reassembly, as the code does it
  // ---------------------------------------------------------------------------

  /** The copy loop of `Receive`. */
  method CopyIn(fb0: Buffer, f: DataFrag) returns (fb: Buffer, panicked: bool)
    ensures CopyFrom(fb0, f, 0) == Copy(fb, panicked)
  {
    fb := fb0;
    var i := 0;
    while i < f.count
      invariant 0 <= i <= f.count && CopyFrom(fb, f, i) == CopyFrom(fb0, f, 0)
    {
      var idx, offset := IndexAt(f, i), OffsetAt(f, i);
      if offset >= f.dataSize {
        break;
      }
      if idx !in fb.indices {
        var chunk := ChunkAt(f, i);
        if chunk.Some? {
          if offset + |chunk.value| > Min(f.dataSize, |fb.data|) {
            return fb, true;
          }
          fb := Place(fb, idx, offset, chunk.value);
        }
      }
      i := i + 1;
    }
    panicked := false;
  }

  class FragmentAssembler {
    var buffers: Buffers

    constructor ()
      ensures buffers == map[]
    {
      buffers := map[];
    }

    method Receive(f: DataFrag, now: nat) returns (sample: Option<seq<byte>>, panicked: bool)
      modifies this
      ensures Received(old(buffers), f, now) == Reception(buffers, sample, panicked)
    {
      if f.size == 0 || f.dataSize == 0 || f.count == 0 {
        return None, false;
      }
      if f.dataSize > MAX_REASSEMBLY_BYTES {
        return None, false;
      }
      var total := FragCount(f.dataSize, f.size);
      var key := FragKey(f.writer, f.sn.low);
      buffers := Sweep(buffers, now);
      var fb := if key in buffers then buffers[key]
                else Buffer(seq(f.dataSize, _ => 0), 0, {}, total, now);
      fb, panicked := CopyIn(fb, f);
      if panicked {
        buffers := buffers[key := fb];
        return None, true;
      }
      if fb.received >= fb.total {
        buffers := buffers - {key};
        return Some(fb.data), false;
      }
      buffers := buffers[key := fb];
      return None, false;
    }
  }
}
