/** Fragments that no splitting produces, and what the assembler makes of them. */
module OddFragments {
  import opened Wrappers
  import opened Bytes
  import opened Ids
  import opened Fragments
  import opened Reassembly

  /** Empty or too large announcements are refused before anything else, stale buffers included. */
  lemma RefusedChangesNothing(buffers: Buffers, f: DataFrag, now: nat)
    requires f.size == 0 || f.dataSize == 0 || f.count == 0 || f.dataSize > 16 * 1024 * 1024
    ensures Received(buffers, f, now) == Reception(buffers, None, false)
  {
  }

  /** Fragments are numbered from 1: with number 0 the index wraps around, lies beyond any sample, and
      nothing is copied. */
  lemma NumberZeroCopiesNothing(fb: Buffer, f: DataFrag)
    requires f.start == 0 && 0 < f.size && f.dataSize <= 16 * 1024 * 1024
    ensures CopyFrom(fb, f, 0) == Copy(fb, false)
  {
    LastOffset(f.size);
    assert IndexAt(f, 0) == 0xFFFF_FFFF;
  }

  lemma LastOffset(size: U16)
    requires 0 < size
    ensures (0xFFFF_FFFF * size) % TWO_32 == TWO_32 - size
  {
    assert 0xFFFF_FFFF * size == TWO_32 * (size - 1) + (TWO_32 - size);
    RemainderIs(0xFFFF_FFFF * size, TWO_32, size - 1, TWO_32 - size);
  }

  lemma RemainderIs(v: nat, d: nat, q: nat, r: nat)
    requires d > 0 && r < d && v == d * q + r
    ensures v % d == r
  {
    QuotientIs(v, d, q, r);
  }

  /** One fragment whose place lies inside the announced size: copying it panics exactly when its number is
      not in yet and its octets reach beyond the announced size or the buffer. */
  lemma OnePanicsIff(fb: Buffer, f: DataFrag, k: nat)
    requires f.start == k + 1 && f.count == 1 && |f.payload| <= f.size && k * f.size < f.dataSize <= 16 * 1024 * 1024
    requires 0 < f.size
    ensures CopyFrom(fb, f, 0).panicked <==>
            k !in fb.indices && (k * f.size + |f.payload| > f.dataSize || k * f.size + |f.payload| > |fb.data|)
  {
    FirstPosition(f, k, k * f.size);
    if f.payload == [] {
      assert f.payload[0..0] == [];
    } else {
      OnlyChunk(f);
    }
    assert ChunkAt(f, 0) == Some(f.payload);
    CopyEnds(fb, f);
  }

  function Nils(n: nat): seq<byte> {
    seq(n, _ => 0)
  }

  /** A fragment that carries fewer octets than its size counts as received all the same: here of a sample of
      one fragment, the octets missing come out as zeros. So the sample is right exactly when none is missing. */
  lemma ShortFragmentIsZeroFilled(w: EntityId, r: EntityId, sn: SequenceNumber, size: U16, n: U32, payload: seq<byte>, now: nat)
    requires |payload| <= n <= size && 0 < n
    ensures Received(map[], DataFrag(w, r, sn, 1, 1, size, n, payload), now).sample == Some(payload + Nils(n - |payload|))
  {
    var f := DataFrag(w, r, sn, 1, 1, size, n, payload);
    var fb := BufferFor(Sweep(map[], now), f, now);
    FirstPosition(f, 0, 0);
    if payload == [] {
      assert payload[0..0] == [];
    } else {
      OnlyChunk(f);
    }
    OneFragment(n, size);
    assert fb == Buffer(Nils(n), 0, {}, 1, now);
    var placed := Place(fb, 0, 0, payload);
    assert placed.data == payload + Nils(n - |payload|);
    CopyEnds(placed, f);
    assert CopyFrom(fb, f, 0) == Copy(placed, false);
  }

  lemma OneFragment(n: nat, size: nat)
    requires 0 < n <= size
    ensures FragCount(n, size) == 1
  {
    CountMeaning(n, size, 0);
    CountMeaning(n, size, 1);
  }
}
