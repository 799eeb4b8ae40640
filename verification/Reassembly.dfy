/** Reassembly inverts splitting, whatever the order, repetition and interleaving of the fragments. */
module Reassembly {
  import opened Wrappers
  import opened Bytes
  import opened Ids
  import opened Fragments

  // ---------------------------------------------------------------------------
  // A partly filled buffer
  // ---------------------------------------------------------------------------

  ghost predicate Splittable(payload: seq<byte>, size: U16) {
    0 < size && 0 < |payload| <= MAX_REASSEMBLY_BYTES
  }

  /** All fragment numbers of an `n`-octet sample. */
  ghost function AllIndices(n: nat, size: nat): set<nat>
    requires size > 0
  {
    UpTo(FragCount(n, size))
  }

  ghost function UpTo(n: nat): (s: set<nat>)
    ensures forall k: nat :: k in s <==> k < n
  {
    if n == 0 then {} else UpTo(n - 1) + {n - 1}
  }

  /** The buffer holds the sample's octets wherever a seen fragment covers them. */
  ghost predicate Partial(fb: Buffer, payload: seq<byte>, size: U16, seen: set<nat>)
    requires Splittable(payload, size)
  {
    && |fb.data| == |payload| && fb.total == FragCount(|payload|, size)
    && fb.indices == seen <= AllIndices(|payload|, size) && fb.received == |seen|
    && forall p | 0 <= p < |payload| && p / size in seen :: fb.data[p] == payload[p]
  }

  lemma DivRange(p: nat, size: nat, k: nat)
    requires size > 0
    ensures p / size == k <==> k * size <= p < k * size + size
  {
    var q := p / size;
    assert q * size <= p < q * size + size;
    if q < k {
      assert (q + 1) * size <= k * size;
    } else if q > k {
      assert (k + 1) * size <= q * size;
    }
  }

  lemma {:induction false} RangeSize(s: set<nat>, n: nat)
    requires forall k <- s :: k < n
    ensures |s| <= n
    ensures |s| == n <==> s == UpTo(n)
  {
    if n == 0 {
      assert s == {};
    } else {
      var t := s - {n - 1};
      RangeSize(t, n - 1);
      if n - 1 in s {
        assert s == t + {n - 1};
      } else {
        assert s == t;
      }
    }
  }

  lemma PlaceKeepsPartial(fb: Buffer, payload: seq<byte>, size: U16, seen: set<nat>, k: nat)
    requires Splittable(payload, size) && Partial(fb, payload, size, seen)
    requires k < FragCount(|payload|, size) && k !in seen
    ensures k * size < |payload|
    ensures Partial(Place(fb, k, k * size, Chunk(payload, size, k)), payload, size, seen + {k})
  {
    CountMeaning(|payload|, size, k);
    var fb' := Place(fb, k, k * size, Chunk(payload, size, k));
    forall p | 0 <= p < |payload| && p / size in seen + {k}
      ensures fb'.data[p] == payload[p]
    {
      DivRange(p, size, k);
    }
  }

  lemma FirstPosition(f: DataFrag, k: nat, offset: nat)
    requires f.start == k + 1 && offset == k * f.size && offset < TWO_32
    ensures IndexAt(f, 0) == k && OffsetAt(f, 0) == offset
  {
    assert (f.start + TWO_32 - 1) + 0 == TWO_32 + k;
  }

  lemma AtLeastItself(k: nat, size: nat)
    requires size > 0
    ensures k <= k * size
  {
  }

  lemma OwnFits(payload: seq<byte>, size: U16, k: nat)
    requires Splittable(payload, size) && k < FragCount(|payload|, size)
    ensures k <= k * size < |payload|
    ensures 0 < |Chunk(payload, size, k)| <= size && k * size + |Chunk(payload, size, k)| <= |payload|
  {
    AtLeastItself(k, size);
    CountMeaning(|payload|, size, k);
  }

  lemma OwnPosition(w: EntityId, sn: SequenceNumber, payload: seq<byte>, size: U16, k: nat)
    requires Splittable(payload, size) && k < FragCount(|payload|, size)
    ensures k * size < |payload| && k + 1 < TWO_32
    ensures var f := FragAt(w, sn, payload, size, k);
            && IndexAt(f, 0) == k && OffsetAt(f, 0) == k * size
            && 0 < |f.payload| <= size && k * size + |f.payload| <= |payload|
  {
    OwnFits(payload, size, k);
    FirstPosition(FragAt(w, sn, payload, size, k), k, k * size);
  }

  lemma OnlyChunk(f: DataFrag)
    requires 0 < |f.payload| <= f.size
    ensures ChunkAt(f, 0) == Some(f.payload)
  {
    assert f.payload[0..|f.payload|] == f.payload;
  }

  /** A submessage with one fragment that fits is copied to its place, once. */
  lemma CopySingle(fb: Buffer, f: DataFrag)
    requires f.count == 1 && 0 < |f.payload| <= f.size
    requires OffsetAt(f, 0) + |f.payload| <= f.dataSize == |fb.data|
    ensures CopyFrom(fb, f, 0) ==
            Copy(if IndexAt(f, 0) in fb.indices then fb else Place(fb, IndexAt(f, 0), OffsetAt(f, 0), f.payload), false)
  {
    OnlyChunk(f);
    var fb' := if IndexAt(f, 0) in fb.indices then fb else Place(fb, IndexAt(f, 0), OffsetAt(f, 0), f.payload);
    assert CopyFrom(fb', f, 1) == Copy(fb', false);
  }

  /** What one fragment of the sample does to a buffer of the sample. */
  lemma CopyOwn(fb: Buffer, w: EntityId, sn: SequenceNumber, payload: seq<byte>, size: U16, seen: set<nat>, k: nat)
    requires Splittable(payload, size) && Partial(fb, payload, size, seen)
    requires k < FragCount(|payload|, size)
    ensures k * size < |payload| && k + 1 < TWO_32
    ensures var r := CopyFrom(fb, FragAt(w, sn, payload, size, k), 0);
            !r.panicked && Partial(r.fb, payload, size, seen + {k}) && r.fb.created == fb.created
  {
    OwnPosition(w, sn, payload, size, k);
    CopySingle(fb, FragAt(w, sn, payload, size, k));
    if k in seen {
      assert seen + {k} == seen;
    } else {
      PlaceKeepsPartial(fb, payload, size, seen, k);
    }
  }

  // ---------------------------------------------------------------------------
  // Submessages that carry several fragments
  // ---------------------------------------------------------------------------

  /** The numbers from `lo` on, `n` of them. */
  ghost function Between(lo: nat, n: nat): (s: set<nat>)
    ensures forall x: nat :: x in s <==> lo <= x < lo + n
  {
    if n == 0 then {} else Between(lo, n - 1) + {lo + n - 1}
  }

  /** The 0-based numbers of the fragments a submessage says it carries. */
  ghost function Numbers(f: DataFrag): set<nat> {
    if f.start == 0 then {} else Between(f.start - 1, f.count)
  }

  /** The submessage carries fragments `k` to `k + c - 1` of a sample: their octets one after another. */
  ghost predicate Bears(f: DataFrag, payload: seq<byte>, size: U16, k: nat, c: U16) {
    && 0 < c && k * size <= (k + c) * size && k * size <= |payload|
    && f.start == k + 1 && f.count == c && f.size == size && f.dataSize == |payload|
    && f.payload == payload[k * size..Min((k + c) * size, |payload|)]
  }

  lemma TimesSize(k: nat, i: nat, size: nat)
    ensures (k + i) * size == k * size + i * size
  {
  }

  /** Where the i-th fragment of such a submessage lies in the sample and in the payload carried. */
  lemma RunPosition(payload: seq<byte>, size: U16, k: nat, c: U16, i: nat)
    requires Splittable(payload, size) && i < c && k + c <= FragCount(|payload|, size)
    ensures k + i + 1 < TWO_32 && k * size + i * size == (k + i) * size < |payload|
    ensures (k + i) * size + size <= (k + c) * size && k * size <= (k + c) * size
  {
    OwnFits(payload, size, k + i);
    TimesSize(k, i, size);
    TimesSize(k, c, size);
    TimesSize(i + 1, c - i - 1, size);
    TimesSize(i, 1, size);
  }

  lemma RunIndex(f: DataFrag, k: nat, i: nat)
    requires f.start == k + 1 && k + i + 1 < TWO_32 && (k + i) * f.size < TWO_32
    ensures IndexAt(f, i) == k + i && OffsetAt(f, i) == (k + i) * f.size
  {
    assert (f.start + TWO_32 - 1) + i == TWO_32 + (k + i);
  }

  lemma SliceOfSlice(payload: seq<byte>, from: nat, to: nat, a: nat, b: nat)
    requires from <= to <= |payload| && a <= b <= to - from
    ensures payload[from..to][a..b] == payload[from + a..from + b]
  {
    forall i | 0 <= i < b - a
      ensures payload[from..to][a..b][i] == payload[from + a..from + b][i]
    {
    }
  }

  lemma RunChunk(f: DataFrag, payload: seq<byte>, size: U16, k: nat, c: U16, i: nat)
    requires Splittable(payload, size) && i < c && k + c <= FragCount(|payload|, size) && Bears(f, payload, size, k, c)
    ensures (k + i) * size <= |payload| && ChunkAt(f, i) == Some(Chunk(payload, size, k + i))
  {
    RunPosition(payload, size, k, c, i);
    var from, to := k * size, Min((k + c) * size, |payload|);
    var a, b := i * size, Min(i * size + size, to - from);
    SliceOfSlice(payload, from, to, a, b);
    assert from + b == Min((k + i) * size + size, |payload|);
  }

  /** The i-th fragment carried is fragment `k + i` of the sample, whole. */
  ghost predicate Tells(f: DataFrag, payload: seq<byte>, size: U16, k: nat, i: nat)
    requires Splittable(payload, size)
  {
    && i < f.count && f.dataSize == |payload|
    && k + i < FragCount(|payload|, size) && (k + i) * size < |payload|
    && IndexAt(f, i) == k + i && OffsetAt(f, i) == (k + i) * size
    && ChunkAt(f, i) == Some(Chunk(payload, size, k + i))
  }

  lemma RunTells(f: DataFrag, payload: seq<byte>, size: U16, k: nat, c: U16, i: nat)
    requires Splittable(payload, size) && i < c && k + c <= FragCount(|payload|, size) && Bears(f, payload, size, k, c)
    ensures Tells(f, payload, size, k, i)
  {
    RunPosition(payload, size, k, c, i);
    RunIndex(f, k, i);
    RunChunk(f, payload, size, k, c, i);
  }

  /** So are all from the i-th on. */
  ghost predicate AllTell(f: DataFrag, payload: seq<byte>, size: U16, k: nat, i: nat)
    requires Splittable(payload, size)
  {
    forall j | i <= j < f.count :: Tells(f, payload, size, k, j)
  }

  lemma CopyEnds(fb: Buffer, f: DataFrag)
    ensures CopyFrom(fb, f, f.count) == Copy(fb, false)
  {
  }

  /** `all` is `seen` and the `n` numbers from `lo` on. */
  ghost predicate Adds(all: set<nat>, seen: set<nat>, lo: nat, n: nat) {
    forall x :: x in all <==> x in seen || lo <= x < lo + n
  }

  lemma AddsNone(all: set<nat>, seen: set<nat>, lo: nat)
    requires Adds(all, seen, lo, 0)
    ensures all == seen
  {
  }

  lemma AddsFirst(all: set<nat>, seen: set<nat>, lo: nat, n: nat)
    requires n > 0 && Adds(all, seen, lo, n)
    ensures Adds(all, seen + {lo}, lo + 1, n - 1)
  {
  }

  lemma {:induction false} CopyTold(fb: Buffer, f: DataFrag, payload: seq<byte>, size: U16,
                                    seen: set<nat>, all: set<nat>, k: nat, i: nat, left: nat) returns (r: Copy)
    requires Splittable(payload, size) && Partial(fb, payload, size, seen) && i + left == f.count
    requires AllTell(f, payload, size, k, i) && Adds(all, seen, k + i, left)
    ensures r == CopyFrom(fb, f, i)
    ensures !r.panicked && r.fb.created == fb.created && Partial(r.fb, payload, size, all)
    decreases left
  {
    if left == 0 {
      CopyEnds(fb, f);
      AddsNone(all, seen, k + i);
      r := Copy(fb, false);
    } else {
      var fb' := CopyRunStep(fb, f, payload, size, seen, k, i);
      AddsFirst(all, seen, k + i, left);
      r := CopyTold(fb', f, payload, size, seen + {k + i}, all, k, i + 1, left - 1);
    }
  }

  lemma CopyRunStep(fb: Buffer, f: DataFrag, payload: seq<byte>, size: U16, seen: set<nat>, k: nat, i: nat)
    returns (fb': Buffer)
    requires Splittable(payload, size) && Partial(fb, payload, size, seen) && i < f.count && AllTell(f, payload, size, k, i)
    ensures AllTell(f, payload, size, k, i + 1)
    ensures CopyFrom(fb, f, i) == CopyFrom(fb', f, i + 1)
    ensures Partial(fb', payload, size, seen + {k + i}) && fb'.created == fb.created
  {
    assert Tells(f, payload, size, k, i);
    var n := k + i;
    OwnFits(payload, size, n);
    if n in seen {
      fb' := fb;
      assert seen + {n} == seen;
    } else {
      fb' := Place(fb, n, n * size, Chunk(payload, size, n));
      PlaceKeepsPartial(fb, payload, size, seen, n);
    }
  }

  /** Copying such a submessage puts exactly the fragments named, each whole and in its place, whichever of
      them were in before. */
  lemma CopyRun(fb: Buffer, f: DataFrag, payload: seq<byte>, size: U16, seen: set<nat>, k: nat, c: U16)
    requires Splittable(payload, size) && Partial(fb, payload, size, seen)
    requires Bears(f, payload, size, k, c) && k + c <= FragCount(|payload|, size)
    ensures var r := CopyFrom(fb, f, 0);
            && !r.panicked && r.fb.created == fb.created
            && Partial(r.fb, payload, size, seen + Between(k, c))
  {
    RunAllTells(f, payload, size, k, c);
    var r := CopyTold(fb, f, payload, size, seen, seen + Between(k, c), k, 0, c);
  }

  lemma RunAllTells(f: DataFrag, payload: seq<byte>, size: U16, k: nat, c: U16)
    requires Splittable(payload, size) && Bears(f, payload, size, k, c) && k + c <= FragCount(|payload|, size)
    ensures AllTell(f, payload, size, k, 0) && f.count == c
  {
    forall j | 0 <= j < f.count
      ensures Tells(f, payload, size, k, j)
    {
      RunTells(f, payload, size, k, c, j);
    }
  }

  lemma IndexInRange(p: nat, n: nat, size: nat)
    requires size > 0 && p < n
    ensures p / size < FragCount(n, size)
  {
    DivRange(p, size, p / size);
    CountMeaning(n, size, p / size);
  }

  /** A buffer is complete exactly when every fragment was seen, and then it is the sample. */
  lemma CompleteMeansPayload(fb: Buffer, payload: seq<byte>, size: U16, seen: set<nat>)
    requires Splittable(payload, size) && Partial(fb, payload, size, seen)
    ensures fb.received >= fb.total <==> seen == AllIndices(|payload|, size)
    ensures seen == AllIndices(|payload|, size) ==> fb.data == payload
  {
    RangeSize(seen, FragCount(|payload|, size));
    if seen == AllIndices(|payload|, size) {
      EveryPositionIsSeen(|payload|, size);
    }
  }

  lemma EveryPositionIsSeen(n: nat, size: nat)
    requires size > 0
    ensures forall p | 0 <= p < n :: p / size in AllIndices(n, size)
  {
    forall p | 0 <= p < n
      ensures p / size in AllIndices(n, size)
    {
      IndexInRange(p, n, size);
    }
  }

  // ---------------------------------------------------------------------------
  // Arrivals
  // ---------------------------------------------------------------------------

  datatype Arrival = Arrival(frag: DataFrag, now: nat)

  /** The buffers after the arrivals, and what the last one returned. */
  function Run(start: Buffers, arrivals: seq<Arrival>): Reception {
    if arrivals == [] then Reception(start, None, false)
    else
      var a := arrivals[|arrivals| - 1];
      Received(Run(start, arrivals[..|arrivals| - 1]).buffers, a.frag, a.now)
  }

  lemma RunSnoc(start: Buffers, arrivals: seq<Arrival>, a: Arrival)
    ensures Run(start, arrivals + [a]) == Received(Run(start, arrivals).buffers, a.frag, a.now)
  {
    assert (arrivals + [a])[..|arrivals|] == arrivals;
  }

  /** A sample being sent: who writes it, under which number, and how it is cut. */
  datatype Sample = Sample(writer: EntityId, sn: SequenceNumber, payload: seq<byte>, size: U16) {
    ghost predicate Valid() {
      Splittable(payload, size)
    }

    function Key(): FragKey {
      FragKey(writer, sn.low)
    }

    ghost predicate IsFragment(f: DataFrag)
      requires Valid()
    {
      exists k: nat :: IsFragmentAt(f, k)
    }

    ghost predicate IsFragmentAt(f: DataFrag, k: nat)
      requires Valid()
    {
      && k < FragCount(|payload|, size) && k * size <= |payload| && k + 1 < TWO_32
      && f == FragAt(writer, sn, payload, size, k)
    }

    /** One or several consecutive fragments of the sample, for whatever reader. */
    ghost predicate IsRun(f: DataFrag)
      requires Valid()
    {
      exists k: nat, c: U16 :: IsRunAt(f, k, c)
    }

    ghost predicate IsRunAt(f: DataFrag, k: nat, c: U16)
      requires Valid()
    {
      f.writer == writer && f.sn == sn && k + c <= FragCount(|payload|, size) && Bears(f, payload, size, k, c)
    }

    ghost function All(): set<nat>
      requires Valid()
    {
      AllIndices(|payload|, size)
    }
  }

  /** The fragment numbers of sample `s` among the arrivals. */
  ghost function Seen(s: Sample, arrivals: seq<Arrival>): set<nat> {
    if arrivals == [] then {}
    else
      var a := arrivals[|arrivals| - 1];
      Seen(s, arrivals[..|arrivals| - 1]) + if KeyOf(a.frag) == s.Key() then Numbers(a.frag) else {}
  }

  /** Whatever arrives under the sample's key carries fragments of it, one or more at a time. */
  ghost predicate OnlyOwn(s: Sample, arrivals: seq<Arrival>)
    requires s.Valid()
  {
    forall a <- arrivals | KeyOf(a.frag) == s.Key() :: s.IsRun(a.frag)
  }

  /** No arrival comes more than the stale age after a fragment of the sample. */
  ghost predicate NoneStale(s: Sample, arrivals: seq<Arrival>) {
    forall i, j | 0 <= i < j < |arrivals| && KeyOf(arrivals[i].frag) == s.Key() ::
      arrivals[j].now - arrivals[i].now <= STALE_FRAG_AGE
  }

  ghost predicate Pending(s: Sample, arrivals: seq<Arrival>, buffers: Buffers)
    requires s.Valid()
  {
    var seen := Seen(s, arrivals);
    if seen == {} then s.Key() !in buffers
    else
      && s.Key() in buffers && Partial(buffers[s.Key()], s.payload, s.size, seen)
      && exists i :: 0 <= i < |arrivals| && KeyOf(arrivals[i].frag) == s.Key()
                     && arrivals[i].now == buffers[s.Key()].created
  }

  lemma OwnNeverRejected(s: Sample, f: DataFrag, k: nat)
    requires s.Valid() && s.IsFragmentAt(f, k)
    ensures !Rejected(f) && KeyOf(f) == s.Key() && f.dataSize == |s.payload| && IndexAt(f, 0) == k
    ensures s.IsRunAt(f, k, 1) && Numbers(f) == {k}
  {
    TimesSize(k, 1, s.size);
    assert Between(k, 1) == {k};
  }

  lemma RunNeverRejected(s: Sample, f: DataFrag, k: nat, c: U16)
    requires s.Valid() && s.IsRunAt(f, k, c)
    ensures !Rejected(f) && KeyOf(f) == s.Key() && f.dataSize == |s.payload|
    ensures Numbers(f) == Between(k, c) != {} && Between(k, c) <= s.All()
  {
    assert k in Between(k, c);
  }

  lemma SeenSnoc(s: Sample, arrivals: seq<Arrival>, a: Arrival)
    ensures Seen(s, arrivals + [a]) ==
            Seen(s, arrivals) + if KeyOf(a.frag) == s.Key() then Numbers(a.frag) else {}
  {
    assert (arrivals + [a])[..|arrivals|] == arrivals;
  }

  /** An arrival under another key leaves this sample's live buffer as it is. */
  lemma OtherKeysUntouched(buffers: Buffers, f: DataFrag, now: nat, key: FragKey)
    requires KeyOf(f) != key
    ensures var after := Received(buffers, f, now).buffers;
            && (key in buffers && now - buffers[key].created <= 5_000_000_000 ==>
                  key in after && after[key] == buffers[key])
            && (key !in buffers ==> key !in after)
  {
  }

  /** Each fragment taken in clears away every reassembly that has gone stale, its own included: what is
      left under its key then started with it. */
  lemma StaleReassembliesGo(buffers: Buffers, f: DataFrag, now: nat, key: FragKey)
    requires !Rejected(f) && key in Received(buffers, f, now).buffers
    ensures var fb := Received(buffers, f, now).buffers[key];
            && now - fb.created <= 5_000_000_000
            && (key in buffers && now - buffers[key].created > 5_000_000_000 ==> key == KeyOf(f) && fb.created == now)
  {
    var swept := Sweep(buffers, now);
    CopyKeepsAge(BufferFor(swept, f, now), f, 0);
  }

  lemma {:induction false} CopyKeepsAge(fb: Buffer, f: DataFrag, i: nat)
    ensures CopyFrom(fb, f, i).fb.created == fb.created
    decreases f.count - i
  {
    if i < f.count && OffsetAt(f, i) < f.dataSize {
      if IndexAt(f, i) in fb.indices || ChunkAt(f, i).None? {
        CopyKeepsAge(fb, f, i + 1);
      } else if !Misfits(fb, f, i) {
        CopyKeepsAge(Place(fb, IndexAt(f, i), OffsetAt(f, i), ChunkAt(f, i).value), f, i + 1);
      }
    }
  }

  lemma PendingOther(s: Sample, arrivals: seq<Arrival>, a: Arrival, buffers: Buffers)
    requires s.Valid() && KeyOf(a.frag) != s.Key() && NoneStale(s, arrivals + [a])
    requires Pending(s, arrivals, buffers)
    ensures Pending(s, arrivals + [a], Received(buffers, a.frag, a.now).buffers)
  {
    var all, key := arrivals + [a], s.Key();
    SeenSnoc(s, arrivals, a);
    assert Seen(s, all) == Seen(s, arrivals);
    OtherKeysUntouched(buffers, a.frag, a.now, key);
    if Seen(s, arrivals) != {} {
      var i :| 0 <= i < |arrivals| && KeyOf(arrivals[i].frag) == key && arrivals[i].now == buffers[key].created;
      assert all[i] == arrivals[i] && all[|arrivals|] == a;
    }
  }

  /** What fragments of the sample find: its own buffer, or a new one. */
  lemma OwnBuffer(s: Sample, arrivals: seq<Arrival>, a: Arrival, buffers: Buffers)
    requires s.Valid() && KeyOf(a.frag) == s.Key() && !Rejected(a.frag) && a.frag.dataSize == |s.payload|
    requires a.frag.size == s.size && NoneStale(s, arrivals + [a]) && Pending(s, arrivals, buffers)
    ensures var fb := BufferFor(Sweep(buffers, a.now), a.frag, a.now);
            && Partial(fb, s.payload, s.size, Seen(s, arrivals))
            && exists i :: 0 <= i <= |arrivals| && KeyOf((arrivals + [a])[i].frag) == s.Key()
                           && (arrivals + [a])[i].now == fb.created
  {
    var all, key := arrivals + [a], s.Key();
    assert all[|arrivals|] == a;
    if Seen(s, arrivals) == {} {
      assert key !in Sweep(buffers, a.now);
    } else {
      var i :| 0 <= i < |arrivals| && KeyOf(arrivals[i].frag) == key && arrivals[i].now == buffers[key].created;
      assert all[i] == arrivals[i];
      assert key in Sweep(buffers, a.now);
    }
  }

  /** Fragments of the sample: either it stays pending and nothing comes out, or the last fragments missing
      were among them, and exactly the sample comes out. */
  lemma PendingOwn(s: Sample, arrivals: seq<Arrival>, a: Arrival, buffers: Buffers, k: nat, c: U16)
    requires s.Valid() && s.IsRunAt(a.frag, k, c) && NoneStale(s, arrivals + [a])
    requires Pending(s, arrivals, buffers)
    ensures var r := Received(buffers, a.frag, a.now);
            && !r.panicked
            && if Seen(s, arrivals + [a]) == s.All()
               then r.sample == Some(s.payload) && s.Key() !in r.buffers
               else r.sample == None && Pending(s, arrivals + [a], r.buffers)
  {
    RunNeverRejected(s, a.frag, k, c);
    SeenSnoc(s, arrivals, a);
    OwnBuffer(s, arrivals, a, buffers);
    FillsOwn(s, arrivals + [a], a, buffers, Seen(s, arrivals), k, c);
  }

  lemma FillsOwn(s: Sample, all: seq<Arrival>, a: Arrival, buffers: Buffers, seen: set<nat>, k: nat, c: U16)
    requires s.Valid() && s.IsRunAt(a.frag, k, c) && !Rejected(a.frag) && KeyOf(a.frag) == s.Key()
    requires Seen(s, all) == seen + Between(k, c) != {}
    requires var fb := BufferFor(Sweep(buffers, a.now), a.frag, a.now);
             && Partial(fb, s.payload, s.size, seen)
             && exists i :: 0 <= i < |all| && KeyOf(all[i].frag) == s.Key() && all[i].now == fb.created
    ensures var r := Received(buffers, a.frag, a.now);
            && !r.panicked
            && if Seen(s, all) == s.All()
               then r.sample == Some(s.payload) && s.Key() !in r.buffers
               else r.sample == None && Pending(s, all, r.buffers)
  {
    var fb := BufferFor(Sweep(buffers, a.now), a.frag, a.now);
    CopyRun(fb, a.frag, s.payload, s.size, seen, k, c);
    var fb' := CopyFrom(fb, a.frag, 0).fb;
    CompleteMeansPayload(fb', s.payload, s.size, seen + Between(k, c));
    if Seen(s, all) != s.All() {
      StillPending(s, all, Sweep(buffers, a.now), fb');
    }
  }

  lemma StillPending(s: Sample, all: seq<Arrival>, swept: Buffers, fb: Buffer)
    requires s.Valid() && Seen(s, all) != {} && Partial(fb, s.payload, s.size, Seen(s, all))
    requires exists i :: 0 <= i < |all| && KeyOf(all[i].frag) == s.Key() && all[i].now == fb.created
    ensures Pending(s, all, swept[s.Key() := fb])
  {
  }

  lemma {:induction false} StaysPending(s: Sample, start: Buffers, arrivals: seq<Arrival>)
    requires s.Valid() && s.Key() !in start
    requires OnlyOwn(s, arrivals) && NoneStale(s, arrivals) && Seen(s, arrivals) != s.All()
    ensures Pending(s, arrivals, Run(start, arrivals).buffers)
  {
    if arrivals != [] {
      var n := |arrivals| - 1;
      var init, a := arrivals[..n], arrivals[n];
      assert arrivals == init + [a];
      SeenSnoc(s, init, a);
      SeenIsBounded(s, arrivals);
      assert forall b <- init :: b in arrivals;
      assert forall i | 0 <= i < n :: init[i] == arrivals[i];
      StaysPending(s, start, init);
      var buffers := Run(start, init).buffers;
      if KeyOf(a.frag) == s.Key() {
        assert a in arrivals;
        var k: nat, c: U16 :| s.IsRunAt(a.frag, k, c);
        PendingOwn(s, init, a, buffers, k, c);
      } else {
        PendingOther(s, init, a, buffers);
      }
    }
  }

  lemma {:induction false} SeenIsBounded(s: Sample, arrivals: seq<Arrival>)
    requires s.Valid() && OnlyOwn(s, arrivals)
    ensures Seen(s, arrivals) <= s.All()
  {
    if arrivals != [] {
      var init, a := arrivals[..|arrivals| - 1], arrivals[|arrivals| - 1];
      assert a in arrivals && forall b <- init :: b in arrivals;
      SeenIsBounded(s, init);
      if KeyOf(a.frag) == s.Key() {
        var k: nat, c: U16 :| s.IsRunAt(a.frag, k, c);
        RunNeverRejected(s, a.frag, k, c);
      }
    }
  }

  /** For any arrivals so far, in any order, carrying one fragment or several, repeated, overlapping and
      interleaved with whatever arrives under other keys, that do not yet include every fragment: the next
      fragments of the sample are accepted; they return nothing while some fragment is still missing, and
      exactly the sample once they include the last ones missing. Not even traffic that makes the assembler
      panic disturbs this. */
  lemma ReassemblyInvertsSplitting(s: Sample, start: Buffers, arrivals: seq<Arrival>, a: Arrival)
    requires s.Valid() && s.Key() !in start
    requires OnlyOwn(s, arrivals + [a]) && NoneStale(s, arrivals + [a]) && s.IsRun(a.frag)
    requires Seen(s, arrivals) != s.All()
    ensures !Run(start, arrivals + [a]).panicked
    ensures Run(start, arrivals + [a]).sample == if Seen(s, arrivals + [a]) == s.All() then Some(s.payload) else None
  {
    var all := arrivals + [a];
    assert all[|arrivals|] == a;
    assert forall b <- arrivals :: b in all;
    assert forall i | 0 <= i < |arrivals| :: arrivals[i] == all[i];
    RunSnoc(start, arrivals, a);
    StaysPending(s, start, arrivals);
    var k: nat, c: U16 :| s.IsRunAt(a.frag, k, c);
    PendingOwn(s, arrivals, a, Run(start, arrivals).buffers, k, c);
  }

  /** The key leaves out the participant and the high half of the number. When two samples share it,
      the fragments mix: here neither of two samples comes out, but a sample nobody wrote. */
  lemma SharedKeyMixesSamples(w: EntityId, sn: SequenceNumber, sn': SequenceNumber)
    requires sn.low == sn'.low
    ensures var a, b := Arrival(FragAt(w, sn, [1, 1], 1, 0), 0), Arrival(FragAt(w, sn', [2, 2], 1, 1), 0);
            Run(map[], [a, b]).sample == Some([1, 2])
  {
    var p: seq<byte> := [1, 1];
    var q: seq<byte> := [2, 2];
    var fa, fb := FragAt(w, sn, p, 1, 0), FragAt(w, sn', q, 1, 1);
    var a, b := Arrival(fa, 0), Arrival(fb, 0);
    var b0 := Buffer([0, 0], 0, {}, 2, 0);
    var b1 := Buffer([1, 0], 1, {0}, 2, 0);
    var b2 := Buffer([1, 2], 2, {0, 1}, 2, 0);
    assert BufferFor(map[], fa, 0) == b0;
    assert Place(b0, 0, 0, [1]) == b1;
    assert Place(b1, 1, 1, [2]) == b2;
    assert Chunk(p, 1, 0) == p[0..1] == [1] && Chunk(q, 1, 1) == q[1..2] == [2];
    assert fa.payload == [1] && fb.payload == [2];
    FirstPosition(fa, 0, 0);
    FirstPosition(fb, 1, 1);
    CopySingle(b0, fa);
    CopySingle(b1, fb);
    assert CopyFrom(b0, fa, 0) == Copy(b1, false) && CopyFrom(b1, fb, 0) == Copy(b2, false);
    assert [a][..0] == [] && [a, b][..1] == [a];
    var m: Buffers := map[KeyOf(fa) := b1];
    assert Received(map[], fa, 0) == Reception(m, None, false);
    assert Sweep(m, 0) == m;
    assert Run(map[], [a]) == Reception(m, None, false);
  }
}
