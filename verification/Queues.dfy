/** The bounded sample queue of a subscriber, and the relay backlog fed from it. */
module Queues {
  import opened Wrappers

  datatype Policy = DropNewest | DropOldest | Block

  // ---------------------------------------------------------------------------
  // The queue
  // ---------------------------------------------------------------------------

  datatype Queue<T> = Queue(items: seq<T>, capacity: nat, policy: Policy, closed: bool, unsubscribed: bool) {

    predicate Open() {
      !closed && !unsubscribed
    }

    predicate Full() {
      policy != DropOldest && |items| >= capacity
    }

    predicate Refuses() {
      !Open() || Full()
    }

    predicate Evicts() {
      !Full() && |items| >= capacity && items != []
    }

    /** The part of a push under the queue's lock, once the flags have been found open. */
    function Enqueue(x: T): Queue<T> {
      if Full() then this
      else this.(items := (if Evicts() then items[1..] else items) + [x])
    }

    function Push(x: T): Queue<T> {
      if Open() then Enqueue(x) else this
    }

    function Pop(): Queue<T> {
      if items == [] then this else this.(items := items[1..])
    }
  }

  function NewQueue<T>(capacity: nat, policy: Policy): Queue<T> {
    Queue([], capacity, policy, false, false)
  }

  class SubInner<T> {
    var queue: seq<T>
    const capacity: nat
    const policy: Policy
    var closed: bool
    var unsubscribed: bool

    constructor (capacity: nat, policy: Policy)
      ensures View() == NewQueue<T>(capacity, policy)
    {
      queue := [];
      this.capacity := capacity;
      this.policy := policy;
      closed := false;
      unsubscribed := false;
    }

    function View(): Queue<T>
      reads this
    {
      Queue(queue, capacity, policy, closed, unsubscribed)
    }

    /** The part of `Push` that holds the lock; a close may come between it and the check. */
    method Enqueue(sample: T) returns (accepted: bool)
      modifies this`queue
      ensures View() == old(View()).Enqueue(sample) && accepted == !old(View()).Full()
      ensures accepted <==> policy == DropOldest || |old(queue)| < capacity
      ensures queue == if !accepted then old(queue)
                       else if |old(queue)| < capacity || old(queue) == [] then old(queue) + [sample]
                       else old(queue)[1..] + [sample]
    {
      match policy {
        case DropNewest =>
          if |queue| >= capacity {
            return false;
          }
          queue := queue + [sample];
        case DropOldest =>
          if |queue| >= capacity && queue != [] {
            queue := queue[1..];
          }
          queue := queue + [sample];
        case Block =>
          if |queue| >= capacity {
            return false;
          }
          queue := queue + [sample];
      }
      return true;
    }

    method Push(sample: T) returns (accepted: bool)
      modifies this`queue
      ensures View() == old(View()).Push(sample) && accepted == !old(View()).Refuses()
      ensures accepted <==> !closed && !unsubscribed && (policy == DropOldest || |old(queue)| < capacity)
      ensures queue == if !accepted then old(queue)
                       else if |old(queue)| < capacity || old(queue) == [] then old(queue) + [sample]
                       else old(queue)[1..] + [sample]
    {
      if unsubscribed || closed {
        return false;
      }
      accepted := Enqueue(sample);
    }

    method Pop() returns (sample: Option<T>)
      modifies this`queue
      ensures View() == old(View()).Pop()
      ensures sample == if old(queue) == [] then None else Some(old(queue)[0])
      ensures queue == if old(queue) == [] then [] else old(queue)[1..]
    {
      if queue == [] {
        return None;
      }
      sample := Some(queue[0]);
      queue := queue[1..];
    }

    method Close()
      modifies this`closed
      ensures View() == old(View()).(closed := true)
    {
      closed := true;
    }

    method Unsubscribe()
      modifies this`closed, this`unsubscribed
      ensures View() == old(View()).(closed := true, unsubscribed := true)
    {
      unsubscribed := true;
      Close();
    }
  }

  // ---------------------------------------------------------------------------
  // Runs
  // ---------------------------------------------------------------------------

  /** `EnqueueOp` is the locked part of a push that found the flags open earlier, so it may come after
      a close; `PushOp` is a push with nothing in between. */
  datatype Op<T> = PushOp(x: T) | EnqueueOp(x: T) | PopOp | CloseOp | UnsubscribeOp

  /** A queue with its history: every sample offered to it; the numbers, among the offered, of those
      accepted; the numbers, among the accepted, of those popped; and the number of the sample that
      heads the queue, or will. */
  datatype Trace<T> = Trace(q: Queue<T>, offered: seq<T>, acceptedAt: seq<nat>, poppedAt: seq<nat>, head: nat)

  function Enqueued<T>(t: Trace<T>, x: T): Trace<T> {
    Trace(t.q.Enqueue(x), t.offered + [x],
          if t.q.Full() then t.acceptedAt else t.acceptedAt + [|t.offered|],
          t.poppedAt, if t.q.Evicts() then t.head + 1 else t.head)
  }

  function Step<T>(t: Trace<T>, op: Op<T>): Trace<T> {
    match op
    case PushOp(x) => if t.q.Open() then Enqueued(t, x) else t.(offered := t.offered + [x])
    case EnqueueOp(x) => Enqueued(t, x)
    case PopOp =>
      if t.q.items == [] then t else t.(q := t.q.Pop(), poppedAt := t.poppedAt + [t.head], head := t.head + 1)
    case CloseOp => t.(q := t.q.(closed := true))
    case UnsubscribeOp => t.(q := t.q.(closed := true, unsubscribed := true))
  }

  function Run<T>(q: Queue<T>, ops: seq<Op<T>>): Trace<T> {
    if ops == [] then Trace(q, [], [], [], 0)
    else Step(Run(q, ops[..|ops| - 1]), ops[|ops| - 1])
  }

  /** Strictly increasing numbers below `n`. */
  ghost predicate Picks(at: seq<nat>, n: nat) {
    && (forall i | 0 <= i < |at| :: at[i] < n)
    && forall i, j | 0 <= i < j < |at| :: at[i] < at[j]
  }

  /** The samples with the given numbers. */
  ghost function Pick<T>(s: seq<T>, at: seq<nat>): (r: seq<T>)
    requires Picks(at, |s|)
    ensures |r| == |at| && forall i | 0 <= i < |at| :: r[i] == s[at[i]]
  {
    seq(|at|, i requires 0 <= i < |at| => s[at[i]])
  }

  ghost predicate Subsequence<T>(s: seq<T>, of: seq<T>) {
    exists at :: Picks(at, |of|) && s == Pick(of, at)
  }

  ghost predicate Sane<T>(t: Trace<T>) {
    && Picks(t.acceptedAt, |t.offered|) && Picks(t.poppedAt, t.head)
    && t.head + |t.q.items| == |t.acceptedAt|
    && forall j | 0 <= j < |t.q.items| :: t.q.items[j] == t.offered[t.acceptedAt[t.head + j]]
  }

  ghost function Accepted<T>(t: Trace<T>): seq<T>
    requires Sane(t)
  {
    Pick(t.offered, t.acceptedAt)
  }

  ghost function Popped<T>(t: Trace<T>): seq<T>
    requires Sane(t)
  {
    Pick(Accepted(t), t.poppedAt)
  }

  lemma OfferKeepsSane<T>(t: Trace<T>, x: T)
    requires Sane(t)
    ensures Sane(t.(offered := t.offered + [x]))
  {
    assert forall i | 0 <= i < |t.offered| :: (t.offered + [x])[i] == t.offered[i];
  }

  lemma AcceptKeepsPicks<T>(t: Trace<T>, x: T)
    requires Sane(t) && !t.q.Full()
    ensures var t' := Enqueued(t, x);
            && Picks(t'.acceptedAt, |t'.offered|) && Picks(t'.poppedAt, t'.head) && t'.head + |t'.q.items| == |t'.acceptedAt|
  {
    assert Enqueued(t, x).acceptedAt == t.acceptedAt + [|t.offered|];
  }

  lemma AcceptKeepsSane<T>(t: Trace<T>, x: T)
    requires Sane(t) && !t.q.Full()
    ensures Sane(Enqueued(t, x))
  {
    var t', n := Enqueued(t, x), |t.acceptedAt|;
    AcceptKeepsPicks(t, x);
    forall j | 0 <= j < |t'.q.items|
      ensures t'.q.items[j] == t'.offered[t'.acceptedAt[t'.head + j]]
    {
      if t'.head + j < n {
        assert t'.acceptedAt[t'.head + j] == t.acceptedAt[t'.head + j] < |t.offered|;
        assert t'.q.items[j] == t.q.items[t'.head + j - t.head];
      }
    }
  }

  lemma EnqueueKeepsSane<T>(t: Trace<T>, x: T)
    requires Sane(t)
    ensures Sane(Enqueued(t, x))
  {
    if t.q.Full() {
      OfferKeepsSane(t, x);
    } else {
      AcceptKeepsSane(t, x);
    }
  }

  lemma StepKeepsSane<T>(t: Trace<T>, op: Op<T>)
    requires Sane(t)
    ensures Sane(Step(t, op))
  {
    match op
    case PushOp(x) =>
      EnqueueKeepsSane(t, x);
      OfferKeepsSane(t, x);
    case EnqueueOp(x) => EnqueueKeepsSane(t, x);
    case _ =>
  }

  lemma {:induction false} RunIsSane<T>(capacity: nat, policy: Policy, ops: seq<Op<T>>)
    ensures var t := Run(NewQueue(capacity, policy), ops);
            Sane(t) && t.q.capacity == capacity && t.q.policy == policy
  {
    if ops != [] {
      RunIsSane(capacity, policy, ops[..|ops| - 1]);
      StepKeepsSane(Run(NewQueue(capacity, policy), ops[..|ops| - 1]), ops[|ops| - 1]);
    }
  }

  // ---------------------------------------------------------------------------
  // What every run keeps
  // ---------------------------------------------------------------------------

  /** A push is refused exactly when the queue is closed, or keeps its oldest and is at capacity. */
  ghost predicate Takes<T>(q: Queue<T>, op: Op<T>) {
    && (op.PushOp? ==> !q.closed && !q.unsubscribed)
    && (q.policy == DropOldest || |q.items| < q.capacity)
  }

  /** What an accepted push does: the sample goes to the end, after the oldest has made room if need be. */
  lemma PushMeaning<T>(q: Queue<T>, x: T)
    ensures q.Refuses() <==> !Takes(q, PushOp(x))
    ensures q.Push(x) == if !Takes(q, PushOp(x)) then q
                         else if |q.items| < q.capacity || q.items == [] then q.(items := q.items + [x])
                         else q.(items := q.items[1..] + [x])
  {
  }

  ghost function OffersIn<T>(ops: seq<Op<T>>): nat {
    if ops == [] then 0
    else OffersIn(ops[..|ops| - 1]) + if ops[|ops| - 1].PushOp? || ops[|ops| - 1].EnqueueOp? then 1 else 0
  }

  lemma {:induction false} OffersCount<T>(q: Queue<T>, ops: seq<Op<T>>)
    ensures |Run(q, ops).offered| == OffersIn(ops)
  {
    if ops != [] {
      OffersCount(q, ops[..|ops| - 1]);
    }
  }

  /** Later operations leave it as it is whether an offer already made was accepted. */
  lemma StepKeepsAccepted<T>(t: Trace<T>, op: Op<T>, n: nat)
    requires n < |t.offered|
    ensures n in Step(t, op).acceptedAt <==> n in t.acceptedAt
    ensures n < |Step(t, op).offered|
  {
    var t' := Step(t, op);
    if t'.acceptedAt != t.acceptedAt {
      assert t'.acceptedAt == t.acceptedAt + [|t.offered|];
    }
  }

  lemma OfferDecides<T>(t: Trace<T>, op: Op<T>)
    requires Picks(t.acceptedAt, |t.offered|) && (op.PushOp? || op.EnqueueOp?)
    ensures |t.offered| in Step(t, op).acceptedAt <==> Takes(t.q, op)
  {
    var t' := Step(t, op);
    assert |t.offered| !in t.acceptedAt;
    if Takes(t.q, op) {
      assert t'.acceptedAt[|t.acceptedAt|] == |t.offered|;
    }
  }

  /** Over every run: the offer made by operation `j` is missing from the accepted ones exactly when the
      flags were closed, or the queue held `capacity` samples and does not evict, at that moment. */
  lemma {:induction false} AcceptedIff<T>(capacity: nat, policy: Policy, ops: seq<Op<T>>, j: nat)
    requires j < |ops| && (ops[j].PushOp? || ops[j].EnqueueOp?)
    ensures var q := NewQueue<T>(capacity, policy);
            OffersIn(ops[..j]) in Run(q, ops).acceptedAt <==> Takes(Run(q, ops[..j]).q, ops[j])
    ensures OffersIn(ops[..j]) < |Run(NewQueue<T>(capacity, policy), ops).offered|
  {
    var q, last := NewQueue<T>(capacity, policy), |ops| - 1;
    RunIsSane(capacity, policy, ops[..last]);
    OffersCount(q, ops[..last]);
    if j == last {
      OfferDecides(Run(q, ops[..last]), ops[last]);
    } else {
      assert ops[..last][..j] == ops[..j];
      AcceptedIff(capacity, policy, ops[..last], j);
      StepKeepsAccepted(Run(q, ops[..last]), ops[last], OffersIn(ops[..j]));
    }
  }

  lemma {:induction false} BoundedUnlessZero<T>(capacity: nat, policy: Policy, ops: seq<Op<T>>)
    ensures |Run(NewQueue(capacity, policy), ops).q.items| <= if policy == DropOldest then Max(capacity, 1) else capacity
  {
    RunIsSane(capacity, policy, ops);
    if ops != [] {
      RunIsSane(capacity, policy, ops[..|ops| - 1]);
      BoundedUnlessZero(capacity, policy, ops[..|ops| - 1]);
    }
  }

  /** The queue stays within its depth in every run exactly when the depth is positive or the policy
      never evicts: a `DropOldest` queue of depth zero holds one sample. */
  lemma BoundHoldsIff<T>(capacity: nat, policy: Policy, x: T)
    ensures (forall ops: seq<Op<T>> :: |Run(NewQueue(capacity, policy), ops).q.items| <= capacity)
            <==> capacity >= 1 || policy != DropOldest
  {
    forall ops: seq<Op<T>> | capacity >= 1 || policy != DropOldest
      ensures |Run(NewQueue(capacity, policy), ops).q.items| <= capacity
    {
      BoundedUnlessZero(capacity, policy, ops);
    }
    if capacity == 0 && policy == DropOldest {
      var ops := [PushOp(x)];
      assert ops[..0] == [];
      assert Run(NewQueue(capacity, policy), ops).q.items == [x];
    }
  }

  /** The numbers, among the offered, of what was consumed and then of what is queued. */
  ghost function OutAt<T>(t: Trace<T>): (at: seq<nat>)
    requires Sane(t)
    ensures |at| == |t.poppedAt| + |t.q.items|
    ensures forall i | 0 <= i < |t.poppedAt| :: at[i] == t.acceptedAt[t.poppedAt[i]]
    ensures forall i | |t.poppedAt| <= i < |at| :: at[i] == t.acceptedAt[t.head + (i - |t.poppedAt|)]
  {
    seq(|t.poppedAt|, i requires 0 <= i < |t.poppedAt| => t.acceptedAt[t.poppedAt[i]]) + t.acceptedAt[t.head..]
  }

  lemma OutPicks<T>(t: Trace<T>)
    requires Sane(t)
    ensures Picks(OutAt(t), |t.offered|)
  {
  }

  lemma OutIsPicked<T>(t: Trace<T>)
    requires Sane(t)
    ensures Picks(OutAt(t), |t.offered|) && Popped(t) + t.q.items == Pick(t.offered, OutAt(t))
  {
    OutPicks(t);
  }

  /** Consumed and queued samples are, in order, a subsequence of those offered; what is queued is the
      end of what was accepted. */
  lemma LossyFifo<T>(capacity: nat, policy: Policy, ops: seq<Op<T>>)
    ensures var t := Run(NewQueue(capacity, policy), ops);
            && Sane(t) && Subsequence(Popped(t) + t.q.items, t.offered)
            && t.q.items == Accepted(t)[|t.acceptedAt| - |t.q.items|..]
  {
    RunIsSane(capacity, policy, ops);
    OutIsPicked(Run(NewQueue(capacity, policy), ops));
    ItemsAreTheTail(Run(NewQueue(capacity, policy), ops));
  }

  lemma ItemsAreTheTail<T>(t: Trace<T>)
    requires Sane(t)
    ensures t.q.items == Accepted(t)[t.head..]
  {
  }

  ghost predicate NothingEvicted<T>(t: Trace<T>) {
    |t.poppedAt| == t.head && forall i | 0 <= i < t.head :: t.poppedAt[i] == i
  }

  lemma {:induction false} NeverEvicts<T>(capacity: nat, policy: Policy, ops: seq<Op<T>>)
    requires policy != DropOldest
    ensures NothingEvicted(Run(NewQueue(capacity, policy), ops))
  {
    if ops != [] {
      NeverEvicts(capacity, policy, ops[..|ops| - 1]);
      RunIsSane(capacity, policy, ops[..|ops| - 1]);
    }
  }

  lemma NothingLost<T>(t: Trace<T>)
    requires Sane(t) && NothingEvicted(t)
    ensures Popped(t) + t.q.items == Accepted(t)
  {
    assert forall j | 0 <= j < |t.q.items| :: Accepted(t)[t.head + j] == t.q.items[j];
  }

  /** Without eviction every accepted sample is consumed or still queued, in order and once. */
  lemma AcceptedIsKept<T>(capacity: nat, policy: Policy, ops: seq<Op<T>>)
    requires policy != DropOldest
    ensures var t := Run(NewQueue(capacity, policy), ops);
            Sane(t) && Popped(t) + t.q.items == Accepted(t)
  {
    RunIsSane(capacity, policy, ops);
    NeverEvicts(capacity, policy, ops);
    NothingLost(Run(NewQueue(capacity, policy), ops));
  }

  /** Accepted sample `k` is consumed, still queued, or followed by at least `depth` newer ones. */
  ghost predicate Accounted<T>(t: Trace<T>, depth: nat, k: nat) {
    k in t.poppedAt || k >= t.head || |t.acceptedAt| - 1 - k >= depth
  }

  lemma StepKeepsAccounted<T>(t: Trace<T>, op: Op<T>, k: nat)
    requires Sane(t) && Accounted(t, Max(t.q.capacity, 1), k) && k < |Step(t, op).acceptedAt|
    ensures Accounted(Step(t, op), Max(t.q.capacity, 1), k)
  {
    if op.PopOp? && t.q.items != [] && k == t.head {
      assert Step(t, op).poppedAt[|t.poppedAt|] == k;
    } else if k in t.poppedAt {
      var i :| 0 <= i < |t.poppedAt| && t.poppedAt[i] == k;
      assert Step(t, op).poppedAt[i] == k;
    }
  }

  /** `DropOldest` takes every sample while open, and loses one only once at least `capacity` newer ones
      were accepted after it. */
  lemma {:induction false} DropsOnlyWhenBehind<T>(capacity: nat, ops: seq<Op<T>>)
    ensures var t := Run(NewQueue(capacity, DropOldest), ops);
            && (t.q.Open() ==> |t.acceptedAt| == |t.offered|)
            && forall k: nat | k < |t.acceptedAt| :: Accounted(t, Max(capacity, 1), k)
  {
    if ops != [] {
      var before := Run(NewQueue(capacity, DropOldest), ops[..|ops| - 1]);
      DropsOnlyWhenBehind(capacity, ops[..|ops| - 1]);
      RunIsSane(capacity, DropOldest, ops[..|ops| - 1]);
      var t := Run(NewQueue(capacity, DropOldest), ops);
      forall k: nat | k < |t.acceptedAt|
        ensures Accounted(t, Max(capacity, 1), k)
      {
        StepKeepsAccounted(before, ops[|ops| - 1], k);
      }
    }
  }

  /** After close or unsubscribe nothing more gets in, but for pushes that had found the queue open
      before, and what was queued can still be consumed. */
  lemma {:induction false} ClosedOnlyDrains<T>(q: Queue<T>, ops: seq<Op<T>>)
    requires !q.Open() && forall op <- ops :: !op.EnqueueOp?
    ensures var t := Run(q, ops);
            && !t.q.Open() && t.acceptedAt == [] && NothingEvicted(t)
            && t.head <= |q.items| && t.q.items == q.items[t.head..]
  {
    if ops != [] {
      var init, last := ops[..|ops| - 1], ops[|ops| - 1];
      assert last in ops && forall op <- init :: op in ops;
      ClosedOnlyDrains(q, init);
    }
  }

  // ---------------------------------------------------------------------------
  // The relay
  // ---------------------------------------------------------------------------

  /** The forwarding task of a `DropOldest` relay subscription. */
  class RelayTask<T> {
    var backlog: seq<T>
    const backlogDepth: nat
    var running: bool

    constructor (depth: nat)
      ensures View() == NewQueue<T>(Max(depth, 1), DropOldest) && running
    {
      backlog := [];
      running := true;
      backlogDepth := Max(depth, 1);
    }

    function View(): Queue<T>
      reads this
    {
      Queue(backlog, backlogDepth, DropOldest, false, false)
    }

    /** A sample came in. */
    method OnSample(msg: T)
      requires running
      modifies this`backlog
      ensures View() == old(View()).Push(msg)
      ensures backlog == if |old(backlog)| < backlogDepth || old(backlog) == [] then old(backlog) + [msg]
                         else old(backlog)[1..] + [msg]
    {
      if |backlog| >= backlogDepth && backlog != [] {
        backlog := backlog[1..];
      }
      backlog := backlog + [msg];
    }

    /** The caller made room for a message. */
    method OnPermit() returns (sent: Option<T>)
      requires running
      modifies this`backlog
      ensures View() == old(View()).Pop()
      ensures sent == if old(backlog) == [] then None else Some(old(backlog)[0])
      ensures backlog == if old(backlog) == [] then [] else old(backlog)[1..]
    {
      if backlog == [] {
        return None;
      }
      sent := Some(backlog[0]);
      backlog := backlog[1..];
    }

    /** The subscriber's queue is closed and drained, or the caller is gone: the loop ends, and what is
        in the backlog goes with it. */
    method OnEnd() returns (discarded: seq<T>)
      requires running
      modifies this
      ensures !running && backlog == [] && discarded == old(backlog)
    {
      discarded := backlog;
      running := false;
      backlog := [];
    }
  }

  /** Every accepted message was sent, or `depth` newer ones came after it. */
  ghost predicate NoneLostEarly<T>(t: Trace<T>, depth: nat) {
    forall k: nat | k < |t.acceptedAt| :: k in t.poppedAt || |t.acceptedAt| - 1 - k >= depth
  }

  /** When the relay's loop ends after any run, no message has been lost early exactly when the backlog is
      empty at that moment. */
  lemma RelayEndIff<T>(depth: nat, ops: seq<Op<T>>)
    ensures var t := Run(NewQueue(Max(depth, 1), DropOldest), ops); NoneLostEarly(t, Max(depth, 1)) <==> t.q.items == []
  {
    var t := Run(NewQueue(Max(depth, 1), DropOldest), ops);
    RunIsSane(Max(depth, 1), DropOldest, ops);
    DropsOnlyWhenBehind(Max(depth, 1), ops);
    if t.q.items == [] {
      forall k: nat | k < |t.acceptedAt|
        ensures k in t.poppedAt || |t.acceptedAt| - 1 - k >= Max(depth, 1)
      {
        assert Accounted(t, Max(Max(depth, 1), 1), k);
      }
    } else {
      BoundedUnlessZero(Max(depth, 1), DropOldest, ops);
      var k := |t.acceptedAt| - 1;
      assert k >= t.head && k !in t.poppedAt;
    }
  }

  /** It happens: with depth 4, one message handed over and two in the backlog, the end loses both, after
      at most one newer one. */
  lemma RelayEndLosesTheBacklog<T>(a: T, b: T, c: T)
    ensures var t := Run(NewQueue(4, DropOldest), [PushOp(a), PopOp, PushOp(b), PushOp(c)]);
            t.q.items == [b, c] && t.poppedAt == [0] && |t.acceptedAt| == 3 && !NoneLostEarly(t, 4)
  {
    var q := NewQueue<T>(4, DropOldest);
    var ops1, ops2, ops3 := [PushOp(a)], [PushOp(a)] + [PopOp], [PushOp(a)] + [PopOp] + [PushOp(b)];
    assert Run(q, []) == Trace(q, [], [], [], 0);
    assert [] + [PushOp(a)] == ops1;
    var t1 := RunOn(q, [], PushOp(a));
    assert t1 == Trace(q.(items := [a]), [a], [0], [], 0);
    var t2 := RunOn(q, ops1, PopOp);
    assert t2 == Trace(q, [a], [0], [0], 1);
    var t3 := RunOn(q, ops2, PushOp(b));
    assert t3 == Trace(q.(items := [b]), [a, b], [0, 1], [0], 1);
    var t4 := RunOn(q, ops3, PushOp(c));
    assert ops3 + [PushOp(c)] == [PushOp(a), PopOp, PushOp(b), PushOp(c)];
    assert t4.q.items == [b, c] && t4.poppedAt == [0] && |t4.acceptedAt| == 3;
    assert 2 !in t4.poppedAt;
  }

  lemma RunOn<T>(q: Queue<T>, ops: seq<Op<T>>, op: Op<T>) returns (t: Trace<T>)
    ensures t == Run(q, ops + [op]) == Step(Run(q, ops), op)
  {
    assert (ops + [op])[..|ops|] == ops;
    t := Run(q, ops + [op]);
  }

  lemma SubsequenceTransitive<T>(a: seq<T>, b: seq<T>, c: seq<T>)
    requires Subsequence(a, b) && Subsequence(b, c)
    ensures Subsequence(a, c)
  {
    var i :| Picks(i, |b|) && a == Pick(b, i);
    var j :| Picks(j, |c|) && b == Pick(c, j);
    var ij := seq(|i|, k requires 0 <= k < |i| => j[i[k]]);
    assert a == Pick(c, ij);
  }

  lemma PrefixIsSubsequence<T>(s: seq<T>, n: nat)
    requires n <= |s|
    ensures Subsequence(s[..n], s)
  {
    var at := seq(n, k requires 0 <= k < n => k);
    assert s[..n] == Pick(s, at);
  }

  /** From the subscriber's queue through the relay's backlog, whatever the policy and however the two
      ends interleave: the caller sees a subsequence of what was pushed. While its loop runs, the backlog
      dropped a message only once at least `depth` newer ones had arrived; if the loop ends now, that stays
      true of all messages exactly when nothing is in the backlog. */
  lemma PipelineIsLossyFifo<T>(capacity: nat, policy: Policy, source: seq<Op<T>>, depth: nat, relay: seq<Op<T>>)
    requires Sane(Run(NewQueue(capacity, policy), source)) // holds of every run
    requires Run(NewQueue(Max(depth, 1), DropOldest), relay).offered == Popped(Run(NewQueue(capacity, policy), source))
    ensures var q, t := Run(NewQueue(capacity, policy), source), Run(NewQueue(Max(depth, 1), DropOldest), relay);
            && Sane(t) && Subsequence(Popped(t), q.offered)
            && (forall k: nat | k < |t.acceptedAt| :: Accounted(t, depth, k))
            && (NoneLostEarly(t, Max(depth, 1)) <==> t.q.items == [])
  {
    RelayEndIff(depth, relay);
    var q, t := Run(NewQueue(capacity, policy), source), Run(NewQueue(Max(depth, 1), DropOldest), relay);
    LossyFifo(capacity, policy, source);
    LossyFifo(Max(depth, 1), DropOldest, relay);
    DropsOnlyWhenBehind(Max(depth, 1), relay);
    var out, passed := Popped(t) + t.q.items, Popped(q) + q.q.items;
    PrefixIsSubsequence(out, |Popped(t)|);
    assert out[..|Popped(t)|] == Popped(t);
    SubsequenceTransitive(Popped(t), out, t.offered);
    PrefixIsSubsequence(passed, |Popped(q)|);
    assert passed[..|Popped(q)|] == Popped(q);
    SubsequenceTransitive(Popped(q), passed, q.offered);
    SubsequenceTransitive(Popped(t), Popped(q), q.offered);
  }
}
