/** When the reassembler's copy between slices panics, and which traffic never makes it. */
module CopyPanics {
  import opened Wrappers
  import opened Bytes
  import opened Ids
  import opened Fragments
  import R = Reassembly

  /** The copy loop gets as far as the j-th fragment carried, from the i-th on. */
  ghost predicate Reaches(f: DataFrag, i: nat, j: nat) {
    j < f.count && forall m | i <= m <= j :: OffsetAt(f, m) < f.dataSize
  }

  lemma IndicesDiffer(f: DataFrag, i: nat, j: nat)
    requires i < j < f.count
    ensures IndexAt(f, i) != IndexAt(f, j)
  {
  }

  lemma PlaceKeepsMisfits(fb: Buffer, f: DataFrag, i: nat, j: nat)
    requires i < j < f.count && ChunkAt(f, i).Some? && OffsetAt(f, i) + |ChunkAt(f, i).value| <= |fb.data|
    ensures Misfits(Place(fb, IndexAt(f, i), OffsetAt(f, i), ChunkAt(f, i).value), f, j) <==> Misfits(fb, f, j)
  {
    IndicesDiffer(f, i, j);
  }

  ghost predicate SomeMisfit(fb: Buffer, f: DataFrag, i: nat) {
    exists j :: i <= j && Reaches(f, i, j) && Misfits(fb, f, j)
  }

  /** Copying panics exactly when it reaches a fragment whose octets do not fit where they belong. */
  lemma {:induction false} CopyPanicsIff(fb: Buffer, f: DataFrag, i: nat)
    ensures CopyFrom(fb, f, i).panicked <==> SomeMisfit(fb, f, i)
    decreases f.count - i
  {
    if i < f.count && OffsetAt(f, i) < f.dataSize {
      if Misfits(fb, f, i) {
        assert Reaches(f, i, i);
      } else {
        var fb' := if IndexAt(f, i) in fb.indices || ChunkAt(f, i).None? then fb
                   else Place(fb, IndexAt(f, i), OffsetAt(f, i), ChunkAt(f, i).value);
        CopyPanicsIff(fb', f, i + 1);
        forall j | i < j < f.count
          ensures Misfits(fb', f, j) <==> Misfits(fb, f, j)
          ensures Reaches(f, i + 1, j) <==> Reaches(f, i, j)
        {
          if fb' != fb { PlaceKeepsMisfits(fb, f, i, j); }
        }
      }
    }
  }

  /** So a fragment makes the assembler panic exactly when it is not rejected outright and, copied into
      its key's buffer, reaches such a misfit. */
  lemma ReceivePanicsIff(buffers: Buffers, f: DataFrag, now: nat)
    ensures Received(buffers, f, now).panicked <==>
            !Rejected(f) && SomeMisfit(BufferFor(Sweep(buffers, now), f, now), f, 0)
  {
    if !Rejected(f) {
      CopyPanicsIff(BufferFor(Sweep(buffers, now), f, now), f, 0);
    }
  }

  /** No second fragment is needed: one that carries more octets than the sample it announces does it. */
  lemma OversizedFragmentPanics(w: EntityId, r: EntityId, sn: SequenceNumber, payload: seq<byte>, now: nat)
    requires |payload| == 100
    ensures Received(map[], DataFrag(w, r, sn, 1, 1, 100, 10, payload), now).panicked
  {
    var f := DataFrag(w, r, sn, 1, 1, 100, 10, payload);
    ReceivePanicsIff(map[], f, now);
    assert IndexAt(f, 0) == 0 && OffsetAt(f, 0) == 0;
    assert Reaches(f, 0, 0) && Misfits(BufferFor(Sweep(map[], now), f, now), f, 0);
  }

  /** What a submessage copied before it panicked stays: nothing that was in goes, and exactly the fragments
      ahead of the misfit that have octets have come in. */
  lemma {:induction false} CopiedBeforeThePanic(fb: Buffer, f: DataFrag, i: nat) returns (j: nat)
    requires CopyFrom(fb, f, i).panicked
    ensures i <= j && Reaches(f, i, j) && Misfits(fb, f, j)
    ensures forall n :: n in CopyFrom(fb, f, i).fb.indices <==>
              n in fb.indices || exists m :: i <= m < j && n == IndexAt(f, m) && ChunkAt(f, m).Some?
    decreases f.count - i
  {
    if Misfits(fb, f, i) {
      j := i;
    } else {
      var skip := IndexAt(f, i) in fb.indices || ChunkAt(f, i).None?;
      var fb' := if skip then fb else Place(fb, IndexAt(f, i), OffsetAt(f, i), ChunkAt(f, i).value);
      j := CopiedBeforeThePanic(fb', f, i + 1);
      if !skip { PlaceKeepsMisfits(fb, f, i, j); }
      assert Reaches(f, i, j);
      forall n
        ensures n in CopyFrom(fb, f, i).fb.indices <==>
                n in fb.indices || exists m :: i <= m < j && n == IndexAt(f, m) && ChunkAt(f, m).Some?
      {
        BeforeFrom(fb, fb', f, i, j, n);
      }
    }
  }

  lemma BeforeFrom(fb: Buffer, fb': Buffer, f: DataFrag, i: nat, j: nat, n: nat)
    requires i < j
    requires fb'.indices == if IndexAt(f, i) in fb.indices || ChunkAt(f, i).None? then fb.indices
                            else fb.indices + {IndexAt(f, i)}
    ensures (n in fb'.indices || exists m :: i + 1 <= m < j && n == IndexAt(f, m) && ChunkAt(f, m).Some?)
            <==> (n in fb.indices || exists m :: i <= m < j && n == IndexAt(f, m) && ChunkAt(f, m).Some?)
  {
  }

  /** And it stays in the assembler, under the submessage's key. */
  lemma PanicLeavesTheBuffer(buffers: Buffers, f: DataFrag, now: nat)
    requires Received(buffers, f, now).panicked
    ensures var r, copy := Received(buffers, f, now), CopyFrom(BufferFor(Sweep(buffers, now), f, now), f, 0);
            && r.sample == None && KeyOf(f) in r.buffers && r.buffers[KeyOf(f)] == copy.fb
            && forall k | k != KeyOf(f) :: k in r.buffers <==> k in Sweep(buffers, now)
  {
  }

  // ---------------------------------------------------------------------------
  // Traffic that never panics
  // ---------------------------------------------------------------------------

  /** Every fragment carried fits into a sample of the announced size. */
  ghost predicate FitsItsSample(f: DataFrag) {
    forall j | 0 <= j < f.count && OffsetAt(f, j) < f.dataSize && ChunkAt(f, j).Some? ::
      OffsetAt(f, j) + |ChunkAt(f, j).value| <= f.dataSize
  }

  /** Fragments that are not rejected fit, and agree with the others under their key about the size. */
  ghost predicate Consistent(sizes: map<FragKey, nat>, arrivals: seq<R.Arrival>) {
    forall a <- arrivals | !Rejected(a.frag) ::
      FitsItsSample(a.frag) && KeyOf(a.frag) in sizes && a.frag.dataSize == sizes[KeyOf(a.frag)]
  }

  ghost predicate Sized(sizes: map<FragKey, nat>, buffers: Buffers) {
    forall k | k in sizes && k in buffers :: |buffers[k].data| == sizes[k]
  }

  lemma {:induction false} CopyKeepsSize(fb: Buffer, f: DataFrag, i: nat)
    ensures |CopyFrom(fb, f, i).fb.data| == |fb.data|
    decreases f.count - i
  {
    if i < f.count && OffsetAt(f, i) < f.dataSize {
      if IndexAt(f, i) in fb.indices || ChunkAt(f, i).None? {
        CopyKeepsSize(fb, f, i + 1);
      } else if !Misfits(fb, f, i) {
        CopyKeepsSize(Place(fb, IndexAt(f, i), OffsetAt(f, i), ChunkAt(f, i).value), f, i + 1);
      }
    }
  }

  lemma ConsistentStep(sizes: map<FragKey, nat>, buffers: Buffers, a: R.Arrival)
    requires Sized(sizes, buffers)
    requires !Rejected(a.frag) ==>
               FitsItsSample(a.frag) && KeyOf(a.frag) in sizes && a.frag.dataSize == sizes[KeyOf(a.frag)]
    ensures !Received(buffers, a.frag, a.now).panicked && Sized(sizes, Received(buffers, a.frag, a.now).buffers)
  {
    ReceivePanicsIff(buffers, a.frag, a.now);
    if !Rejected(a.frag) {
      var fb := BufferFor(Sweep(buffers, a.now), a.frag, a.now);
      assert |fb.data| == a.frag.dataSize;
      CopyKeepsSize(fb, a.frag, 0);
    }
  }

  /** Traffic whose fragments fit their samples, and agree about the size of each, never makes the
      assembler panic, in whatever order it arrives. */
  lemma {:induction false} ConsistentTrafficNeverPanics(sizes: map<FragKey, nat>, start: Buffers, arrivals: seq<R.Arrival>)
    requires Sized(sizes, start) && Consistent(sizes, arrivals)
    ensures !R.Run(start, arrivals).panicked && Sized(sizes, R.Run(start, arrivals).buffers)
  {
    if arrivals != [] {
      var init, a := arrivals[..|arrivals| - 1], arrivals[|arrivals| - 1];
      assert a in arrivals && forall b <- init :: b in arrivals;
      ConsistentTrafficNeverPanics(sizes, start, init);
      ConsistentStep(sizes, R.Run(start, init).buffers, a);
    }
  }

  lemma OwnFitsItsSample(s: R.Sample, f: DataFrag)
    requires s.Valid() && s.IsRun(f)
    ensures FitsItsSample(f) && f.dataSize == |s.payload|
  {
    var k: nat, c: U16 :| s.IsRunAt(f, k, c);
    forall j | 0 <= j < f.count && OffsetAt(f, j) < f.dataSize && ChunkAt(f, j).Some?
      ensures OffsetAt(f, j) + |ChunkAt(f, j).value| <= f.dataSize
    {
      R.RunTells(f, s.payload, s.size, k, c, j);
      R.OwnFits(s.payload, s.size, k + j);
    }
  }

  /** In particular fragments of samples with different keys, one or several in a submessage, however they
      interleave. */
  lemma SplitSamplesNeverPanic(samples: map<FragKey, R.Sample>, start: Buffers, arrivals: seq<R.Arrival>)
    requires forall k <- samples :: samples[k].Valid() && samples[k].Key() == k && k !in start
    requires forall a <- arrivals :: KeyOf(a.frag) in samples && samples[KeyOf(a.frag)].IsRun(a.frag)
    ensures !R.Run(start, arrivals).panicked
  {
    var sizes := map k | k in samples :: |samples[k].payload|;
    forall a <- arrivals
      ensures FitsItsSample(a.frag) && a.frag.dataSize == sizes[KeyOf(a.frag)]
    {
      OwnFitsItsSample(samples[KeyOf(a.frag)], a.frag);
    }
    ConsistentTrafficNeverPanics(sizes, start, arrivals);
  }
}
