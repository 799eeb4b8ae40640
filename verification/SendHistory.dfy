/**
 The sender side of reliable delivery: a ring of the last 256 wire messages of one writer,
 indexed by sequence number modulo the depth, specified by the log of everything ever stored.
 */
module SendHistories {
  import opened Wrappers

  // Number of samples retained per reliable writer.
  const MAX_HISTORY_DEPTH: nat := 256

  datatype Entry<M> = Entry(sn: nat, msg: M)

  // ---------------------------------------------------------------------------
  // The specification: what a log of stores makes retrievable
  // ---------------------------------------------------------------------------

  /** The last entry of the log whose number falls on ring slot `i`. */
  function LastInSlot<M>(log: seq<Entry<M>>, i: nat): Option<Entry<M>> {
    if log == [] then None
    else if log[|log| - 1].sn % MAX_HISTORY_DEPTH == i then Some(log[|log| - 1])
    else LastInSlot(log[..|log| - 1], i)
  }

  function Highest<M>(log: seq<Entry<M>>): nat
    requires log != []
  {
    var last := log[|log| - 1].sn;
    if |log| == 1 then last else Max(Highest(log[..|log| - 1]), last)
  }

  lemma {:induction false} HighestIsGreatest<M>(log: seq<Entry<M>>)
    requires log != []
    ensures forall k | 0 <= k < |log| :: log[k].sn <= Highest(log)
    ensures exists k | 0 <= k < |log| :: log[k].sn == Highest(log)
  {
    if |log| == 1 {
      assert log[0].sn == Highest(log);
    } else {
      var init := log[..|log| - 1];
      HighestIsGreatest(init);
      var k :| 0 <= k < |init| && init[k].sn == Highest(init);
      assert log[k].sn == Highest(log) || log[|log| - 1].sn == Highest(log);
    }
  }

  /** The window opens at the first number ever stored and slides with the highest. */
  function Lowest<M>(log: seq<Entry<M>>): nat
    requires log != []
  {
    Max(log[0].sn, Highest(log) - MAX_HISTORY_DEPTH + 1)
  }

  function Lookup<M>(log: seq<Entry<M>>, s: nat): Option<M> {
    if log == [] || s < Lowest(log) || Highest(log) < s then None
    else
      match LastInSlot(log, s % MAX_HISTORY_DEPTH)
      case Some(e) => if e.sn == s then Some(e.msg) else None
      case None => None
  }

  lemma Append<M>(log: seq<Entry<M>>, e: Entry<M>)
    ensures forall i: nat :: LastInSlot(log + [e], i) == if e.sn % MAX_HISTORY_DEPTH == i then Some(e) else LastInSlot(log, i)
    ensures Highest(log + [e]) == if log == [] then e.sn else Max(Highest(log), e.sn)
  {
    assert (log + [e])[..|log|] == log;
  }

  // ---------------------------------------------------------------------------
  // The ring
  // ---------------------------------------------------------------------------

  class SendHistory<M> {
    var msg: array<Option<M>>
    var sn: array<nat>
    var highest: nat
    var lowest: nat
    var any: bool
    ghost var Log: seq<Entry<M>>

    ghost predicate SlotHolds(i: nat)
      reads this, msg, sn
      requires i < msg.Length && i < sn.Length
    {
      match LastInSlot(Log, i)
      case None => msg[i] == None && sn[i] == 0
      case Some(e) => msg[i] == Some(e.msg) && sn[i] == e.sn
    }

    ghost predicate Valid()
      reads this, msg, sn
    {
      && msg.Length == sn.Length == MAX_HISTORY_DEPTH
      && any == (Log != [])
      && (any ==> highest == Highest(Log) && lowest == Lowest(Log))
      && forall i | 0 <= i < MAX_HISTORY_DEPTH :: SlotHolds(i)
    }

    constructor ()
      ensures Valid() && Log == [] && fresh(msg) && fresh(sn)
    {
      msg := new Option<M>[MAX_HISTORY_DEPTH](_ => None);
      sn := new nat[MAX_HISTORY_DEPTH](_ => 0);
      highest, lowest, any := 0, 0, false;
      Log := [];
    }

    method Store(seqNum: nat, m: M)
      requires Valid()
      modifies this`highest, this`lowest, this`any, this`Log, msg, sn
      ensures Valid()
      ensures Log == old(Log) + [Entry(seqNum, m)]
    {
      var i := seqNum % MAX_HISTORY_DEPTH;
      msg[i] := Some(m);
      sn[i] := seqNum;
      if !any {
        lowest, highest, any := seqNum, seqNum, true;
      }
      if seqNum > highest {
        highest := seqNum;
      }
      if highest >= MAX_HISTORY_DEPTH {
        var lb := highest - MAX_HISTORY_DEPTH + 1;
        if lb > lowest {
          lowest := lb;
        }
      }
      Append(Log, Entry(seqNum, m));
      Log := Log + [Entry(seqNum, m)];
      forall j | 0 <= j < MAX_HISTORY_DEPTH
        ensures SlotHolds(j)
      {
        assert old(SlotHolds(j));
      }
    }

    method Get(seqNum: nat) returns (r: Option<M>)
      requires Valid()
      ensures r == Lookup(Log, seqNum)
    {
      if !any || seqNum < lowest || seqNum > highest {
        return None;
      }
      var i := seqNum % MAX_HISTORY_DEPTH;
      assert SlotHolds(i);
      if sn[i] != seqNum {
        return None;
      }
      return msg[i];
    }

    method FirstLast() returns (r: Option<(nat, nat)>)
      requires Valid()
      ensures r == if Log == [] then None else Some((Lowest(Log), Highest(Log)))
    {
      if !any {
        return None;
      }
      return Some((lowest, highest));
    }
  }

  // ---------------------------------------------------------------------------
  // What the specification promises
  // ---------------------------------------------------------------------------

  lemma {:induction false} SlotEntry<M>(log: seq<Entry<M>>, i: nat)
    ensures match LastInSlot(log, i)
            case None => forall k | 0 <= k < |log| :: log[k].sn % MAX_HISTORY_DEPTH != i
            case Some(e) => exists k | 0 <= k < |log| ::
              log[k] == e && e.sn % MAX_HISTORY_DEPTH == i
              && forall j | k < j < |log| :: log[j].sn % MAX_HISTORY_DEPTH != i
  {
    if log != [] {
      var init := log[..|log| - 1];
      SlotEntry(init, i);
      if log[|log| - 1].sn % MAX_HISTORY_DEPTH != i && LastInSlot(init, i).Some? {
        var k :| 0 <= k < |init| && init[k] == LastInSlot(init, i).value
                 && forall j | k < j < |init| :: init[j].sn % MAX_HISTORY_DEPTH != i;
        assert log[k] == LastInSlot(log, i).value;
        assert forall j | k < j < |log| :: log[j].sn % MAX_HISTORY_DEPTH != i;
      }
    }
  }

  /** Whatever the order of the stores, a number is never answered with a message stored for
      another number, nor with a message that a later store of the same number replaced. */
  lemma LookupNeverMixes<M>(log: seq<Entry<M>>, s: nat)
    requires Lookup(log, s).Some?
    ensures exists k | 0 <= k < |log| ::
      log[k] == Entry(s, Lookup(log, s).value) && forall j | k < j < |log| :: log[j].sn != s
  {
    SlotEntry(log, s % MAX_HISTORY_DEPTH);
  }

  /** A serialised writer stores consecutive numbers. */
  ghost predicate Contiguous<M>(log: seq<Entry<M>>) {
    forall k | 0 <= k < |log| :: log[k].sn == log[0].sn + k
  }

  lemma ContiguousHighest<M>(log: seq<Entry<M>>)
    requires Contiguous(log) && log != []
    ensures Highest(log) == log[0].sn + |log| - 1
  {
    HighestIsGreatest(log);
  }

  /** Under contiguous stores the ring is exactly the map of the last 256 numbers, so every number
      a HEARTBEAT built from `FirstLast` advertises is retrievable. */
  lemma ContiguousLookup<M>(log: seq<Entry<M>>, s: nat)
    requires Contiguous(log) && log != []
    ensures Highest(log) == log[0].sn + |log| - 1
    ensures Lowest(log) == Max(log[0].sn, Highest(log) - 255)
    ensures Lookup(log, s) ==
            if Lowest(log) <= s <= Highest(log) then Some(log[s - log[0].sn].msg) else None
  {
    ContiguousHighest(log);
    if Lowest(log) <= s <= Highest(log) {
      SlotOfRetained(log, s - log[0].sn);
    }
  }

  lemma SlotOfRetained<M>(log: seq<Entry<M>>, k: nat)
    requires Contiguous(log) && k < |log| <= k + MAX_HISTORY_DEPTH
    ensures LastInSlot(log, log[k].sn % MAX_HISTORY_DEPTH) == Some(log[k])
    decreases |log|
  {
    var last := |log| - 1;
    if k < last {
      if log[last].sn % MAX_HISTORY_DEPTH == log[k].sn % MAX_HISTORY_DEPTH {
        SameSlotWithinDepth(log[k].sn, log[last].sn);
      }
      SlotOfRetained(log[..last], k);
    }
  }

  lemma SameSlotWithinDepth(a: nat, b: nat)
    requires a % MAX_HISTORY_DEPTH == b % MAX_HISTORY_DEPTH && a <= b < a + MAX_HISTORY_DEPTH
    ensures a == b
  {
  }

  // ---------------------------------------------------------------------------
  // Stores out of order
  // ---------------------------------------------------------------------------

  /** No store after the last one of number `s` fell on its slot. */
  ghost predicate LastOnItsSlot<M>(log: seq<Entry<M>>, s: nat) {
    exists k | 0 <= k < |log| ::
      log[k].sn == s && forall j | k < j < |log| :: log[j].sn % MAX_HISTORY_DEPTH != s % MAX_HISTORY_DEPTH
  }

  lemma SlotIff<M>(log: seq<Entry<M>>, s: nat)
    ensures LastOnItsSlot(log, s) <==>
            LastInSlot(log, s % MAX_HISTORY_DEPTH).Some? && LastInSlot(log, s % MAX_HISTORY_DEPTH).value.sn == s
  {
    SlotEntry(log, s % MAX_HISTORY_DEPTH);
  }

  /** For every log, whatever the order of its stores: a number is retrievable exactly when it is among
      the last 256, not below the first number ever stored, and was the last to be stored on its slot. */
  lemma RetrievableIff<M>(log: seq<Entry<M>>, s: nat)
    ensures Lookup(log, s).Some? <==>
            log != [] && log[0].sn <= s && Highest(log) <= s + MAX_HISTORY_DEPTH - 1 && LastOnItsSlot(log, s)
  {
    SlotIff(log, s);
    if log != [] && LastOnItsSlot(log, s) {
      HighestIsGreatest(log);
    }
  }

  /** The number that shares the slot of `n` in the window ending at `h`. */
  function SlotMate(h: nat, n: nat): (m: int)
    requires n <= h
    ensures h - MAX_HISTORY_DEPTH < m <= h
  {
    h - (h - n) % MAX_HISTORY_DEPTH
  }

  lemma SlotMateShares(h: nat, n: nat, s: nat)
    requires n <= h && h - MAX_HISTORY_DEPTH < s <= h
    ensures s % MAX_HISTORY_DEPTH == n % MAX_HISTORY_DEPTH <==> s == SlotMate(h, n)
  {
  }

  /** A store makes its own number retrievable exactly when the window has not left it behind. */
  lemma StoreIsRetrievableIff<M>(log: seq<Entry<M>>, e: Entry<M>)
    ensures Lookup(log + [e], e.sn) == Some(e.msg) <==>
            log == [] || (log[0].sn <= e.sn && Highest(log) <= e.sn + MAX_HISTORY_DEPTH - 1)
  {
    Append(log, e);
    if log != [] {
      assert (log + [e])[0] == log[0];
    }
  }

  ghost predicate Keeps<M>(log: seq<Entry<M>>, e: Entry<M>) {
    forall s: nat | Lookup(log, s).Some? && Highest(log + [e]) <= s + MAX_HISTORY_DEPTH - 1 :: Lookup(log + [e], s).Some?
  }

  lemma InWindowIsHarmless<M>(log: seq<Entry<M>>, e: Entry<M>)
    requires log != [] && Highest(log) <= e.sn + MAX_HISTORY_DEPTH - 1
    ensures Keeps(log, e)
  {
    Append(log, e);
    assert (log + [e])[0] == log[0];
    forall s: nat | Lookup(log, s).Some? && Highest(log + [e]) <= s + MAX_HISTORY_DEPTH - 1
      ensures Lookup(log + [e], s).Some?
    {
      if s % MAX_HISTORY_DEPTH == e.sn % MAX_HISTORY_DEPTH {
        if s < e.sn { SameSlotWithinDepth(s, e.sn); } else { SameSlotWithinDepth(e.sn, s); }
      }
    }
  }

  lemma BelowWindowIff<M>(log: seq<Entry<M>>, e: Entry<M>)
    requires log != [] && e.sn + MAX_HISTORY_DEPTH - 1 < Highest(log)
    ensures Keeps(log, e) <==> Lookup(log, SlotMate(Highest(log), e.sn)).None?
  {
    Append(log, e);
    var log', h := log + [e], Highest(log);
    var mate := SlotMate(h, e.sn);
    assert log'[0] == log[0] && Highest(log') == h;
    SlotMateShares(h, e.sn, mate);
    assert Lookup(log', mate).None?;
    forall s: nat | Lookup(log, s).Some? && h <= s + MAX_HISTORY_DEPTH - 1 && s != mate
      ensures Lookup(log', s).Some?
    {
      SlotMateShares(h, e.sn, s);
    }
  }

  /** A store loses no other retrievable number, the window's slide aside, exactly when its own number is
      less than 256 below the highest, or its slot holds nothing retrievable. */
  lemma StoreKeepsIff<M>(log: seq<Entry<M>>, e: Entry<M>)
    requires log != []
    ensures Keeps(log, e) <==>
            || Highest(log) <= e.sn + MAX_HISTORY_DEPTH - 1
            || Lookup(log, SlotMate(Highest(log), e.sn)).None?
  {
    if Highest(log) <= e.sn + MAX_HISTORY_DEPTH - 1 {
      InWindowIsHarmless(log, e);
    } else {
      BelowWindowIff(log, e);
    }
  }

  /** Both ways to lose a sample happen: when the first store is out of order the window never opens
      below it, although the log holds a number well within the last 256 ... */
  lemma OutOfOrderFirstStoreLosesASample<M>(m2: M, m1: M)
    ensures var log := [Entry(2, m2), Entry(1, m1)];
            Highest(log) == 2 && Entry(1, m1) in log && Lookup(log, 1) == None
  {
    var log := [Entry(2, m2), Entry(1, m1)];
    assert log[..1] == [Entry(2, m2)];
    assert log[1] in log && log[0] in log;
  }

  /** ... and a store that comes 256 numbers late, or more, may overwrite a number that is still advertised. */
  lemma LateStoreLosesASample<M>(a: M, b: M, c: M)
    ensures var log := [Entry(10, a), Entry(300, b), Entry(44, c)];
            Lowest(log) == 45 && Highest(log) == 300 && Lookup(log, 300) == None
  {
    var one, two := [Entry(10, a)], [Entry(10, a)] + [Entry(300, b)];
    Append(one, Entry(300, b));
    Append(two, Entry(44, c));
    assert two + [Entry(44, c)] == [Entry(10, a), Entry(300, b), Entry(44, c)];
    assert Highest(one) == 10 && 300 % MAX_HISTORY_DEPTH == 44;
  }
}
