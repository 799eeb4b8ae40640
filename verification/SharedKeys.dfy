/** Two samples whose fragments share a reassembly key: exactly when a sample nobody wrote can come out. */
module SharedKeys {
  import opened Wrappers
  import opened Bytes
  import opened Ids
  import opened Fragments
  import opened Reassembly

  /** Two samples of one key, cut alike. */
  ghost predicate Rivals(a: Sample, b: Sample) {
    a.Valid() && b.Valid() && a.Key() == b.Key() && a.size == b.size && |a.payload| == |b.payload|
  }

  /** `p` and `q` agree on chunk `k`. */
  ghost predicate SameChunk(p: seq<byte>, q: seq<byte>, size: nat, k: nat)
    requires |p| == |q| && size > 0
  {
    forall x | 0 <= x < |p| && x / size == k :: p[x] == q[x]
  }

  ghost predicate FromEither(a: Sample, b: Sample, arrivals: seq<Arrival>)
    requires Rivals(a, b)
  {
    forall r <- arrivals | KeyOf(r.frag) == a.Key() :: a.IsFragment(r.frag) || b.IsFragment(r.frag)
  }

  /** The last arrival completes a sample that is neither of the two. */
  ghost predicate Third(a: Sample, b: Sample, arrivals: seq<Arrival>) {
    && arrivals != [] && KeyOf(arrivals[|arrivals| - 1].frag) == a.Key()
    && var out := Run(map[], arrivals).sample; out.Some? && out.value != a.payload && out.value != b.payload
  }

  ghost predicate TwoChunksDiffer(a: Sample, b: Sample)
    requires Rivals(a, b)
  {
    exists i: nat, j: nat | i < j < FragCount(|a.payload|, a.size) ::
      !SameChunk(a.payload, b.payload, a.size, i) && !SameChunk(a.payload, b.payload, a.size, j)
  }

  // ---------------------------------------------------------------------------
  // A third sample needs two chunks that differ
  // ---------------------------------------------------------------------------

  /** Every chunk that is in comes whole from one of the two. */
  ghost predicate Mixed(fb: Buffer, a: Sample, b: Sample)
    requires Rivals(a, b)
  {
    && |fb.data| == |a.payload| && fb.total == FragCount(|a.payload|, a.size)
    && fb.received == |fb.indices| && fb.indices <= a.All()
    && forall k <- fb.indices :: SameChunk(fb.data, a.payload, a.size, k) || SameChunk(fb.data, b.payload, a.size, k)
  }

  lemma PlaceSetsChunk(fb: Buffer, payload: seq<byte>, size: U16, k: nat)
    requires Splittable(payload, size) && |fb.data| == |payload| && k < FragCount(|payload|, size)
    ensures k * size < |payload|
    ensures SameChunk(Place(fb, k, k * size, Chunk(payload, size, k)).data, payload, size, k)
  {
    CountMeaning(|payload|, size, k);
    var data := Place(fb, k, k * size, Chunk(payload, size, k)).data;
    forall x | 0 <= x < |data| && x / size == k
      ensures data[x] == payload[x]
    {
      DivRange(x, size, k);
    }
  }

  lemma PlaceLeavesChunk(fb: Buffer, payload: seq<byte>, size: U16, k: nat, other: nat, q: seq<byte>)
    requires Splittable(payload, size) && |fb.data| == |payload| == |q| && k < FragCount(|payload|, size) && other != k
    requires SameChunk(fb.data, q, size, other)
    ensures k * size < |payload|
    ensures SameChunk(Place(fb, k, k * size, Chunk(payload, size, k)).data, q, size, other)
  {
    CountMeaning(|payload|, size, k);
    var data := Place(fb, k, k * size, Chunk(payload, size, k)).data;
    forall x | 0 <= x < |data| && x / size == other
      ensures data[x] == q[x]
    {
      DivRange(x, size, k);
    }
  }

  lemma PlaceKeepsMixed(fb: Buffer, a: Sample, b: Sample, s: Sample, k: nat)
    requires Rivals(a, b) && Mixed(fb, a, b) && (s == a || s == b)
    requires k < FragCount(|s.payload|, s.size) && k !in fb.indices
    ensures k * s.size < |s.payload|
    ensures Mixed(Place(fb, k, k * s.size, Chunk(s.payload, s.size, k)), a, b)
  {
    PlaceSetsChunk(fb, s.payload, s.size, k);
    var fb' := Place(fb, k, k * s.size, Chunk(s.payload, s.size, k));
    forall j <- fb'.indices
      ensures SameChunk(fb'.data, a.payload, a.size, j) || SameChunk(fb'.data, b.payload, a.size, j)
    {
      if j != k {
        if SameChunk(fb.data, a.payload, a.size, j) {
          PlaceLeavesChunk(fb, s.payload, s.size, k, j, a.payload);
        } else {
          PlaceLeavesChunk(fb, s.payload, s.size, k, j, b.payload);
        }
      }
    }
  }

  lemma CopyKeepsMixed(fb: Buffer, a: Sample, b: Sample, s: Sample, f: DataFrag)
    requires Rivals(a, b) && Mixed(fb, a, b) && (s == a || s == b) && s.IsFragment(f)
    ensures !CopyFrom(fb, f, 0).panicked && Mixed(CopyFrom(fb, f, 0).fb, a, b)
  {
    var k: nat :| s.IsFragmentAt(f, k);
    OwnPosition(s.writer, s.sn, s.payload, s.size, k);
    CopySingle(fb, f);
    if k !in fb.indices {
      PlaceKeepsMixed(fb, a, b, s, k);
    }
  }

  ghost predicate MixedIfAny(buffers: Buffers, a: Sample, b: Sample)
    requires Rivals(a, b)
  {
    a.Key() in buffers ==> Mixed(buffers[a.Key()], a, b)
  }

  lemma ReceivedKeepsMixed(buffers: Buffers, a: Sample, b: Sample, r: Arrival)
    requires Rivals(a, b) && MixedIfAny(buffers, a, b)
    requires KeyOf(r.frag) == a.Key() ==> a.IsFragment(r.frag) || b.IsFragment(r.frag)
    ensures MixedIfAny(Received(buffers, r.frag, r.now).buffers, a, b)
    ensures KeyOf(r.frag) == a.Key() && Received(buffers, r.frag, r.now).sample.Some? ==>
              exists fb: Buffer :: Mixed(fb, a, b) && fb.received >= fb.total
                                   && fb.data == Received(buffers, r.frag, r.now).sample.value
  {
    if KeyOf(r.frag) == a.Key() {
      var s := if a.IsFragment(r.frag) then a else b;
      var k: nat :| s.IsFragmentAt(r.frag, k);
      OwnNeverRejected(s, r.frag, k);
      var fb := BufferFor(Sweep(buffers, r.now), r.frag, r.now);
      assert Mixed(fb, a, b);
      CopyKeepsMixed(fb, a, b, s, r.frag);
    } else {
      OtherKeysUntouched(buffers, r.frag, r.now, a.Key());
      OthersMayOnlyRemove(buffers, r.frag, r.now, a.Key());
    }
  }

  lemma OthersMayOnlyRemove(buffers: Buffers, f: DataFrag, now: nat, key: FragKey)
    requires KeyOf(f) != key
    ensures var after := Received(buffers, f, now).buffers; key in after ==> key in buffers && after[key] == buffers[key]
  {
  }

  lemma {:induction false} RunKeepsMixed(a: Sample, b: Sample, arrivals: seq<Arrival>)
    requires Rivals(a, b) && FromEither(a, b, arrivals)
    ensures MixedIfAny(Run(map[], arrivals).buffers, a, b)
  {
    if arrivals != [] {
      var init, r := arrivals[..|arrivals| - 1], arrivals[|arrivals| - 1];
      assert r in arrivals && forall q <- init :: q in arrivals;
      RunKeepsMixed(a, b, init);
      ReceivedKeepsMixed(Run(map[], init).buffers, a, b, r);
    }
  }

  lemma DifferAt(a: Sample, b: Sample, i: nat, j: nat)
    requires Rivals(a, b) && i < FragCount(|a.payload|, a.size) && j < FragCount(|a.payload|, a.size) && i != j
    requires !SameChunk(a.payload, b.payload, a.size, i) && !SameChunk(a.payload, b.payload, a.size, j)
    ensures TwoChunksDiffer(a, b)
  {
    var lo, hi := if i < j then i else j, if i < j then j else i;
    assert !SameChunk(a.payload, b.payload, a.size, lo) && !SameChunk(a.payload, b.payload, a.size, hi);
  }

  lemma OddChunk(p: seq<byte>, q: seq<byte>, size: nat) returns (k: nat)
    requires size > 0 && |p| == |q| && p != q
    ensures k < FragCount(|p|, size) && !SameChunk(p, q, size, k)
  {
    var x :| 0 <= x < |p| && p[x] != q[x];
    k := x / size;
    IndexInRange(x, |p|, size);
  }

  /** A complete mixture other than the two takes a chunk from each, where they differ. */
  lemma MixtureNeedsTwo(fb: Buffer, a: Sample, b: Sample)
    requires Rivals(a, b) && Mixed(fb, a, b) && fb.received >= fb.total
    requires fb.data != a.payload && fb.data != b.payload
    ensures TwoChunksDiffer(a, b)
  {
    RangeSize(fb.indices, FragCount(|a.payload|, a.size));
    var i := OddChunk(fb.data, a.payload, a.size);
    var j := OddChunk(fb.data, b.payload, a.size);
    assert i in fb.indices && j in fb.indices;
    assert SameChunk(fb.data, b.payload, a.size, i) && SameChunk(fb.data, a.payload, a.size, j);
    DifferAt(a, b, i, j);
  }

  lemma ThirdNeedsTwo(a: Sample, b: Sample, arrivals: seq<Arrival>)
    requires Rivals(a, b) && FromEither(a, b, arrivals) && Third(a, b, arrivals)
    ensures TwoChunksDiffer(a, b)
  {
    var init, r := arrivals[..|arrivals| - 1], arrivals[|arrivals| - 1];
    assert r in arrivals && forall q <- init :: q in arrivals;
    RunKeepsMixed(a, b, init);
    ReceivedKeepsMixed(Run(map[], init).buffers, a, b, r);
    var fb: Buffer :| Mixed(fb, a, b) && fb.received >= fb.total && fb.data == Run(map[], arrivals).sample.value;
    MixtureNeedsTwo(fb, a, b);
  }

  // ---------------------------------------------------------------------------
  // Two chunks that differ are enough
  // ---------------------------------------------------------------------------

  /** The high half of the number plays no part in reassembly. */
  lemma {:induction false} CopyIgnoresHigh(fb: Buffer, f: DataFrag, sn: SequenceNumber, i: nat)
    ensures CopyFrom(fb, f.(sn := sn), i) == CopyFrom(fb, f, i)
    decreases f.count - i
  {
    if i < f.count && OffsetAt(f, i) < f.dataSize {
      if IndexAt(f, i) in fb.indices || ChunkAt(f, i).None? {
        CopyIgnoresHigh(fb, f, sn, i + 1);
      } else if !Misfits(fb, f, i) {
        CopyIgnoresHigh(Place(fb, IndexAt(f, i), OffsetAt(f, i), ChunkAt(f, i).value), f, sn, i + 1);
      }
    }
  }

  lemma ReceivedIgnoresHigh(buffers: Buffers, f: DataFrag, sn: SequenceNumber, now: nat)
    requires sn.low == f.sn.low
    ensures Received(buffers, f.(sn := sn), now) == Received(buffers, f, now)
  {
    if !Rejected(f) {
      CopyIgnoresHigh(BufferFor(Sweep(buffers, now), f, now), f, sn, 0);
    }
  }

  ghost predicate SameButHigh(arrivals: seq<Arrival>, others: seq<Arrival>) {
    && |arrivals| == |others|
    && forall i | 0 <= i < |arrivals| ::
      && others[i].now == arrivals[i].now && others[i].frag.sn.low == arrivals[i].frag.sn.low
      && others[i].frag == arrivals[i].frag.(sn := others[i].frag.sn)
  }

  lemma {:induction false} RunIgnoresHigh(arrivals: seq<Arrival>, others: seq<Arrival>)
    requires SameButHigh(arrivals, others)
    ensures Run(map[], arrivals) == Run(map[], others)
  {
    if arrivals != [] {
      var n := |arrivals| - 1;
      RunIgnoresHigh(arrivals[..n], others[..n]);
      ReceivedIgnoresHigh(Run(map[], arrivals[..n]).buffers, arrivals[n].frag, others[n].frag.sn, arrivals[n].now);
    }
  }

  /** Chunk `j` of the second, everything else of the first. */
  ghost function Mixture(a: Sample, b: Sample, j: nat): (m: Sample)
    requires Rivals(a, b)
    ensures m.Valid() && |m.payload| == |a.payload|
    ensures SameChunk(m.payload, b.payload, a.size, j)
    ensures forall k: nat | k != j :: SameChunk(m.payload, a.payload, a.size, k)
  {
    Sample(a.writer, a.sn,
           seq(|a.payload|, x requires 0 <= x < |a.payload| => if x / a.size == j then b.payload[x] else a.payload[x]),
           a.size)
  }

  lemma SameChunkSameOctets(p: seq<byte>, q: seq<byte>, size: nat, k: nat)
    requires size > 0 && |p| == |q| && k * size <= |p| && SameChunk(p, q, size, k)
    ensures Chunk(p, size, k) == Chunk(q, size, k)
  {
    forall i | 0 <= i < |Chunk(p, size, k)|
      ensures Chunk(p, size, k)[i] == Chunk(q, size, k)[i]
    {
      DivRange(k * size + i, size, k);
    }
  }

  ghost function FragOf(s: Sample, k: nat): (f: DataFrag)
    requires s.Valid() && k < FragCount(|s.payload|, s.size)
    ensures s.IsFragmentAt(f, k)
  {
    OwnPosition(s.writer, s.sn, s.payload, s.size, k);
    FragAt(s.writer, s.sn, s.payload, s.size, k)
  }

  /** The first `n` fragments of `s` in order, all at once. */
  ghost function FirstFrags(s: Sample, n: nat): (arrivals: seq<Arrival>)
    requires s.Valid() && n <= FragCount(|s.payload|, s.size)
    ensures |arrivals| == n
    ensures forall k | 0 <= k < n :: s.IsFragmentAt(arrivals[k].frag, k) && arrivals[k].now == 0
  {
    if n == 0 then [] else FirstFrags(s, n - 1) + [Arrival(FragOf(s, n - 1), 0)]
  }

  ghost function InOrder(s: Sample): (arrivals: seq<Arrival>)
    requires s.Valid()
    ensures |arrivals| == FragCount(|s.payload|, s.size)
    ensures forall k | 0 <= k < |arrivals| :: s.IsFragmentAt(arrivals[k].frag, k) && arrivals[k].now == 0
  {
    FirstFrags(s, FragCount(|s.payload|, s.size))
  }

  lemma FragOfTells(s: Sample, k: nat)
    requires s.Valid() && k < FragCount(|s.payload|, s.size)
    ensures KeyOf(FragOf(s, k)) == s.Key() && Numbers(FragOf(s, k)) == {k} && s.IsRun(FragOf(s, k))
  {
    OwnNeverRejected(s, FragOf(s, k), k);
  }

  lemma {:induction false} InOrderSeen(s: Sample, n: nat)
    requires s.Valid() && n <= FragCount(|s.payload|, s.size)
    ensures Seen(s, FirstFrags(s, n)) == UpTo(n)
  {
    if n > 0 {
      InOrderSeen(s, n - 1);
      FragOfTells(s, n - 1);
      SeenSnoc(s, FirstFrags(s, n - 1), Arrival(FragOf(s, n - 1), 0));
    }
  }

  lemma InOrderIsOwn(s: Sample, n: nat)
    requires s.Valid() && n <= FragCount(|s.payload|, s.size)
    ensures OnlyOwn(s, FirstFrags(s, n)) && NoneStale(s, FirstFrags(s, n))
  {
    var arrivals := FirstFrags(s, n);
    forall a <- arrivals
      ensures s.IsRun(a.frag)
    {
      var k :| 0 <= k < n && arrivals[k] == a;
      OwnNeverRejected(s, a.frag, k);
    }
  }

  lemma LastCompletes(s: Sample, init: seq<Arrival>, last: Arrival, n: nat)
    requires s.Valid() && OnlyOwn(s, init + [last]) && NoneStale(s, init + [last]) && s.IsRun(last.frag)
    requires n > 0 && s.All() == UpTo(n) && Seen(s, init) == UpTo(n - 1) && Seen(s, init + [last]) == UpTo(n)
    ensures Run(map[], init + [last]).sample == Some(s.payload)
  {
    assert n - 1 in UpTo(n) && n - 1 !in UpTo(n - 1);
    ReassemblyInvertsSplitting(s, map[], init, last);
  }

  lemma FirstCompletes(s: Sample, n: nat)
    requires s.Valid() && 0 < n == FragCount(|s.payload|, s.size) && s.All() == UpTo(n)
    ensures Run(map[], FirstFrags(s, n)).sample == Some(s.payload)
  {
    InOrderSeen(s, n - 1);
    InOrderSeen(s, n);
    InOrderIsOwn(s, n);
    FragOfTells(s, n - 1);
    LastCompletes(s, FirstFrags(s, n - 1), Arrival(FragOf(s, n - 1), 0), n);
  }

  lemma InOrderCompletes(s: Sample)
    requires s.Valid()
    ensures Run(map[], InOrder(s)).sample == Some(s.payload)
  {
    CountMeaning(|s.payload|, s.size, 0);
    FirstCompletes(s, FragCount(|s.payload|, s.size));
  }

  lemma MixtureIsNeither(a: Sample, b: Sample, i: nat, j: nat)
    requires Rivals(a, b) && i != j
    requires !SameChunk(a.payload, b.payload, a.size, i) && !SameChunk(a.payload, b.payload, a.size, j)
    ensures Mixture(a, b, j).payload != a.payload && Mixture(a, b, j).payload != b.payload
  {
    var m := Mixture(a, b, j).payload;
    assert SameChunk(m, b.payload, a.size, j) && SameChunk(m, a.payload, a.size, i);
  }

  /** The fragments of the mixture, each as its writer sends it. */
  ghost function AsSent(a: Sample, b: Sample, j: nat): (arrivals: seq<Arrival>)
    requires Rivals(a, b) && j < FragCount(|a.payload|, a.size)
    ensures |arrivals| == FragCount(|a.payload|, a.size)
    ensures forall k | 0 <= k < |arrivals| && k != j :: a.IsFragmentAt(arrivals[k].frag, k) && arrivals[k].now == 0
    ensures b.IsFragmentAt(arrivals[j].frag, j) && arrivals[j].now == 0
  {
    InOrder(a)[j := InOrder(b)[j]]
  }

  lemma AsSentIsTheMixture(a: Sample, b: Sample, j: nat)
    requires Rivals(a, b) && j < FragCount(|a.payload|, a.size)
    ensures SameButHigh(AsSent(a, b, j), InOrder(Mixture(a, b, j)))
  {
    var m, arrivals := Mixture(a, b, j), AsSent(a, b, j);
    forall k | 0 <= k < |arrivals|
      ensures InOrder(m)[k].frag.sn.low == arrivals[k].frag.sn.low
      ensures InOrder(m)[k].frag == arrivals[k].frag.(sn := InOrder(m)[k].frag.sn)
    {
      var s := if k == j then b else a;
      OwnPosition(s.writer, s.sn, s.payload, s.size, k);
      assert SameChunk(m.payload, s.payload, a.size, k);
      SameChunkSameOctets(m.payload, s.payload, a.size, k);
    }
  }

  lemma AsSentIsFromEither(a: Sample, b: Sample, j: nat)
    requires Rivals(a, b) && j < FragCount(|a.payload|, a.size)
    ensures FromEither(a, b, AsSent(a, b, j))
  {
    var arrivals := AsSent(a, b, j);
    forall r <- arrivals
      ensures a.IsFragment(r.frag) || b.IsFragment(r.frag)
    {
      var k :| 0 <= k < |arrivals| && arrivals[k] == r;
      assert if k == j then b.IsFragmentAt(r.frag, k) else a.IsFragmentAt(r.frag, k);
    }
  }

  lemma AsSentEndsUnderTheKey(a: Sample, b: Sample, j: nat)
    requires Rivals(a, b) && j < FragCount(|a.payload|, a.size)
    ensures KeyOf(AsSent(a, b, j)[|AsSent(a, b, j)| - 1].frag) == a.Key()
  {
    var c := |AsSent(a, b, j)|;
    OwnNeverRejected(if c - 1 == j then b else a, AsSent(a, b, j)[c - 1].frag, c - 1);
  }

  lemma TwoGiveAThird(a: Sample, b: Sample, i: nat, j: nat)
    requires Rivals(a, b) && i < FragCount(|a.payload|, a.size) && j < FragCount(|a.payload|, a.size) && i != j
    requires !SameChunk(a.payload, b.payload, a.size, i) && !SameChunk(a.payload, b.payload, a.size, j)
    ensures FromEither(a, b, AsSent(a, b, j)) && Third(a, b, AsSent(a, b, j))
  {
    AsSentIsFromEither(a, b, j);
    AsSentEndsUnderTheKey(a, b, j);
    MixtureIsNeither(a, b, i, j);
    AsSentIsTheMixture(a, b, j);
    RunIgnoresHigh(AsSent(a, b, j), InOrder(Mixture(a, b, j)));
    InOrderCompletes(Mixture(a, b, j));
  }

  /** Some arrival of fragments of the two yields a sample that is neither, exactly when they differ in at
      least two chunks. */
  lemma ThirdSampleIff(a: Sample, b: Sample)
    requires Rivals(a, b)
    ensures (exists arrivals :: FromEither(a, b, arrivals) && Third(a, b, arrivals)) <==> TwoChunksDiffer(a, b)
  {
    if arrivals :| FromEither(a, b, arrivals) && Third(a, b, arrivals) {
      ThirdNeedsTwo(a, b, arrivals);
    }
    if TwoChunksDiffer(a, b) {
      var i: nat, j: nat :| i < j < FragCount(|a.payload|, a.size)
                            && !SameChunk(a.payload, b.payload, a.size, i) && !SameChunk(a.payload, b.payload, a.size, j);
      TwoGiveAThird(a, b, i, j);
    }
  }
}
