/** What every subscriber of a topic is offered, over all runs of the broker. */
module LateJoiners {
  import opened Wrappers
  import opened Queues
  import opened Broker

  // ---------------------------------------------------------------------------
  // Runs, with their history
  // ---------------------------------------------------------------------------

  datatype Call<T> =
    | Publish(x: T, durable: bool)
    | Subscribe(durable: bool, capacity: nat, policy: Policy)
    | Pop(i: nat)
    | Close(i: nat)
    | Unsubscribe(i: nat)

  datatype Publication<T> = Publication(x: T, durable: bool)

  /** How a subscriber joined, how many publications there had been when it joined and when it closed,
      and everything done to its queue. */
  datatype Subscriber<T> = Subscriber(
    durable: bool, capacity: nat, policy: Policy, joinedAt: nat, closedAt: Option<nat>, ops: seq<Op<T>>)
  {
    function Trace(): Trace<T> {
      Run(NewQueue(capacity, policy), ops)
    }

    function Do(op: Op<T>): Subscriber<T> {
      this.(ops := ops + [op])
    }

    function CloseAt(n: nat): Subscriber<T> {
      if closedAt.Some? then this else this.(closedAt := Some(n))
    }
  }

  datatype History<T> = History(t: Topic<T>, log: seq<Publication<T>>, subs: seq<Subscriber<T>>)

  predicate Enabled<T>(h: History<T>, call: Call<T>) {
    match call
    case Publish(_, _) => true
    case Subscribe(_, _, _) => true
    case Pop(i) => i < |h.t.queues| && i < |h.subs|
    case Close(i) => i < |h.t.queues| && i < |h.subs|
    case Unsubscribe(i) => i < |h.t.queues| && i < |h.subs|
  }

  /** The operations that push `xs` in turn. */
  function Pushes<T>(xs: seq<T>): seq<Op<T>> {
    if xs == [] then [] else Pushes(xs[..|xs| - 1]) + [PushOp(xs[|xs| - 1])]
  }

  ghost function Pushed<T>(h: History<T>, x: T): (r: seq<Subscriber<T>>)
    requires |h.subs| == |h.t.queues|
    ensures |r| == |h.subs|
    ensures forall i | 0 <= i < |r| :: r[i] == if h.t.queues[i].closed then h.subs[i] else h.subs[i].Do(PushOp(x))
  {
    seq(|h.subs|, i requires 0 <= i < |h.subs| => if h.t.queues[i].closed then h.subs[i] else h.subs[i].Do(PushOp(x)))
  }

  ghost function Apply<T>(h: History<T>, call: Call<T>): History<T>
    requires Enabled(h, call) && Below(h.t.members, |h.t.queues|) && |h.subs| == |h.t.queues|
  {
    match call
    case Publish(x, durable) =>
      History(Published(h.t, x, durable), h.log + [Publication(x, durable)], Pushed(h, x))
    case Subscribe(durable, capacity, policy) =>
      History(Subscribed(h.t, durable, capacity, policy), h.log,
              h.subs + [Subscriber(durable, capacity, policy, |h.log|, None, Pushes(if durable then h.t.cache else []))])
    case Pop(i) =>
      h.(t := h.t.(queues := h.t.queues[i := h.t.queues[i].Pop()]), subs := h.subs[i := h.subs[i].Do(PopOp)])
    case Close(i) =>
      h.(t := h.t.(queues := h.t.queues[i := h.t.queues[i].(closed := true)]),
         subs := h.subs[i := h.subs[i].Do(CloseOp).CloseAt(|h.log|)])
    case Unsubscribe(i) =>
      h.(t := h.t.(queues := h.t.queues[i := h.t.queues[i].(closed := true, unsubscribed := true)]),
         subs := h.subs[i := h.subs[i].Do(UnsubscribeOp).CloseAt(|h.log|)])
  }

  // ---------------------------------------------------------------------------
  // What a publish does
  // ---------------------------------------------------------------------------

  lemma {:induction false} OpenOfMeaning<T>(queues: seq<Queue<T>>, members: seq<nat>, k: nat)
    requires k <= |members| && Picks(members, |queues|)
    ensures var open := OpenOf(queues, members, k);
            && Picks(open, |queues|)
            && (k > 0 && open != [] ==> open[|open| - 1] <= members[k - 1])
            && (forall i <- open :: !queues[i].closed && i in members)
            && forall j | 0 <= j < k && !queues[members[j]].closed :: members[j] in open
  {
    if k > 0 {
      OpenOfMeaning(queues, members, k - 1);
    }
  }

  lemma {:induction false} PushEachMeaning<T>(queues: seq<Queue<T>>, members: seq<nat>, k: nat, x: T)
    requires k <= |members| && Picks(members, |queues|)
    ensures var r := PushEach(queues, members, k, x);
            && (forall j | 0 <= j < k :: r[members[j]] == queues[members[j]].Push(x))
            && forall i | 0 <= i < |queues| && (forall j | 0 <= j < k :: members[j] != i) :: r[i] == queues[i]
  {
    if k > 0 {
      PushEachMeaning(queues, members, k - 1, x);
    }
  }

  /** Every subscriber is either listed or closed. */
  ghost predicate Listed<T>(t: Topic<T>) {
    Valid(t) && forall i | 0 <= i < |t.queues| && !t.queues[i].closed :: i in t.members
  }

  /** A publish pushes its sample once to every subscriber that is not closed, and to no other. */
  lemma PublishMeaning<T>(t: Topic<T>, x: T, durable: bool)
    requires Listed(t)
    ensures var t' := Published(t, x, durable);
            && Listed(t') && |t'.queues| == |t.queues|
            && forall i | 0 <= i < |t.queues| ::
              t'.queues[i] == if t.queues[i].closed then t.queues[i] else t.queues[i].Push(x)
  {
    var open := OpenOf(t.queues, t.members, |t.members|);
    OpenIsNotClosed(t);
    PushEachMeaning(t.queues, open, |open|, x);
  }

  lemma OpenIsNotClosed<T>(t: Topic<T>)
    requires Listed(t)
    ensures var open := OpenOf(t.queues, t.members, |t.members|);
            && Picks(open, |t.queues|) && (forall i <- open :: !t.queues[i].closed)
            && forall i | 0 <= i < |t.queues| && !t.queues[i].closed :: i in open
  {
    var open := OpenOf(t.queues, t.members, |t.members|);
    OpenOfMeaning(t.queues, t.members, |t.members|);
    forall i | 0 <= i < |t.queues| && !t.queues[i].closed
      ensures i in open
    {
      var j :| 0 <= j < |t.members| && t.members[j] == i;
    }
  }

  // ---------------------------------------------------------------------------
  // The invariant
  // ---------------------------------------------------------------------------

  /** The last `n` of a sequence, or all of it. */
  function Last<T>(s: seq<T>, n: nat): seq<T> {
    if |s| <= n then s else s[|s| - n..]
  }

  function Samples<T>(log: seq<Publication<T>>): (r: seq<T>)
    ensures |r| == |log|
  {
    if log == [] then [] else Samples(log[..|log| - 1]) + [log[|log| - 1].x]
  }

  /** The samples published as TransientLocal. */
  function Durable<T>(log: seq<Publication<T>>): seq<T> {
    if log == [] then []
    else Durable(log[..|log| - 1]) + if log[|log| - 1].durable then [log[|log| - 1].x] else []
  }

  /** What the subscriber should have been offered by now: on joining, the last `depth` TransientLocal
      samples; then every publication until it closed. */
  ghost function Expected<T>(s: Subscriber<T>, depth: nat, log: seq<Publication<T>>): seq<T>
    requires s.joinedAt <= |log| && (s.closedAt.Some? ==> s.joinedAt <= s.closedAt.value <= |log|)
  {
    (if s.durable then Last(Durable(log[..s.joinedAt]), depth) else [])
    + Samples(log[s.joinedAt..if s.closedAt.Some? then s.closedAt.value else |log|])
  }

  ghost predicate Served<T>(s: Subscriber<T>, q: Queue<T>, depth: nat, log: seq<Publication<T>>) {
    && s.joinedAt <= |log| && (s.closedAt.Some? ==> s.joinedAt <= s.closedAt.value <= |log|)
    && s.closedAt.Some? == q.closed
    && s.Trace().q == q && s.Trace().offered == Expected(s, depth, log)
  }

  ghost predicate Inv<T>(h: History<T>) {
    && Listed(h.t) && |h.subs| == |h.t.queues| && h.t.depth >= 1
    && h.t.cache == Last(Durable(h.log), h.t.depth)
    && forall i | 0 <= i < |h.subs| :: Served(h.subs[i], h.t.queues[i], h.t.depth, h.log)
  }

  lemma RunNext<T>(s: Subscriber<T>, op: Op<T>)
    ensures s.Do(op).Trace() == Step(s.Trace(), op)
  {
    assert (s.ops + [op])[..|s.ops|] == s.ops;
  }

  lemma SamplesNext<T>(log: seq<Publication<T>>, p: Publication<T>)
    ensures Samples(log + [p]) == Samples(log) + [p.x]
  {
    assert (log + [p])[..|log|] == log;
  }

  lemma Window<A>(s: seq<A>, x: A, from: nat, to: nat)
    requires from <= to <= |s|
    ensures (s + [x])[..from] == s[..from] && (s + [x])[from..to] == s[from..to]
    ensures (s + [x])[from..|s| + 1] == s[from..|s|] + [x]
  {
  }

  lemma ExpectedNext<T>(s: Subscriber<T>, depth: nat, log: seq<Publication<T>>, p: Publication<T>)
    requires s.joinedAt <= |log| && (s.closedAt.Some? ==> s.joinedAt <= s.closedAt.value <= |log|)
    ensures Expected(s, depth, log + [p]) == Expected(s, depth, log) + if s.closedAt.Some? then [] else [p.x]
  {
    if s.closedAt.Some? {
      Window(log, p, s.joinedAt, s.closedAt.value);
    } else {
      Window(log, p, s.joinedAt, |log|);
      SamplesNext(log[s.joinedAt..|log|], p);
    }
  }

  lemma CacheNext<T>(log: seq<Publication<T>>, depth: nat, p: Publication<T>)
    requires depth >= 1
    ensures var cache := Last(Durable(log), depth);
            Last(Durable(log + [p]), depth) == if p.durable then Cached(cache, depth, p.x) else cache
  {
    DurableNext(log, p);
    LastNext(Durable(log), depth, p.x);
    assert Durable(log) + [] == Durable(log);
  }

  lemma DurableNext<T>(log: seq<Publication<T>>, p: Publication<T>)
    ensures Durable(log + [p]) == Durable(log) + if p.durable then [p.x] else []
  {
    assert (log + [p])[..|log|] == log;
  }

  lemma LastNext<T>(s: seq<T>, depth: nat, x: T)
    requires depth >= 1
    ensures Last(s + [x], depth) == Cached(Last(s, depth), depth, x)
  {
  }

  lemma PublishServes<T>(s: Subscriber<T>, q: Queue<T>, depth: nat, log: seq<Publication<T>>, p: Publication<T>)
    requires Served(s, q, depth, log)
    ensures if q.closed then Served(s, q, depth, log + [p])
            else Served(s.Do(PushOp(p.x)), q.Push(p.x), depth, log + [p])
  {
    ExpectedNext(s, depth, log, p);
    ExpectedNext(s.Do(PushOp(p.x)), depth, log, p);
    RunNext(s, PushOp(p.x));
  }

  lemma PublishKeepsInv<T>(h: History<T>, x: T, durable: bool)
    requires Inv(h)
    ensures Inv(Apply(h, Publish(x, durable)))
  {
    var h', p := Apply(h, Publish(x, durable)), Publication(x, durable);
    PublishMeaning(h.t, x, durable);
    CacheNext(h.log, h.t.depth, p);
    forall i | 0 <= i < |h'.subs|
      ensures Served(h'.subs[i], h'.t.queues[i], h'.t.depth, h'.log)
    {
      PublishServes(h.subs[i], h.t.queues[i], h.t.depth, h.log, p);
    }
  }

  lemma {:induction false} PushesRun<T>(q: Queue<T>, xs: seq<T>)
    ensures Run(q, Pushes(xs)).q == PushAll(q, xs) && Run(q, Pushes(xs)).offered == xs
    ensures PushAll(q, xs).closed == q.closed
  {
    if xs != [] {
      var init, x := xs[..|xs| - 1], xs[|xs| - 1];
      PushesRun(q, init);
      assert (Pushes(init) + [PushOp(x)])[..|Pushes(init)|] == Pushes(init);
      assert xs == init + [x];
    }
  }

  lemma SubscribeListed<T>(t: Topic<T>, durable: bool, capacity: nat, policy: Policy)
    requires Listed(t)
    ensures Listed(Subscribed(t, durable, capacity, policy))
  {
    var t', n := Subscribed(t, durable, capacity, policy), |t.members|;
    assert t'.members[n] == |t.queues|;
    forall i | 0 <= i < |t.queues| && !t.queues[i].closed
      ensures i in t'.members
    {
      var j :| 0 <= j < n && t.members[j] == i;
      assert t'.members[j] == i;
    }
  }

  lemma JoinServes<T>(s: Subscriber<T>, replay: seq<T>, depth: nat, log: seq<Publication<T>>)
    requires s.joinedAt == |log| && s.closedAt.None? && s.ops == Pushes(replay)
    requires replay == if s.durable then Last(Durable(log), depth) else []
    ensures Served(s, PushAll(NewQueue(s.capacity, s.policy), replay), depth, log)
  {
    PushesRun(NewQueue(s.capacity, s.policy), replay);
    assert log[..|log|] == log && log[|log|..] == [];
    assert Expected(s, depth, log) == replay;
  }

  lemma SubscribeKeepsInv<T>(h: History<T>, durable: bool, capacity: nat, policy: Policy)
    requires Inv(h)
    ensures Inv(Apply(h, Subscribe(durable, capacity, policy)))
  {
    var h' := Apply(h, Subscribe(durable, capacity, policy));
    SubscribeListed(h.t, durable, capacity, policy);
    JoinServes(h'.subs[|h.subs|], if durable then h.t.cache else [], h.t.depth, h.log);
  }

  lemma DoServes<T>(s: Subscriber<T>, q: Queue<T>, depth: nat, log: seq<Publication<T>>, op: Op<T>)
    requires Served(s, q, depth, log) && !op.PushOp? && !op.EnqueueOp?
    ensures var s' := if op.PopOp? then s.Do(op) else s.Do(op).CloseAt(|log|);
            Served(s', Step(s.Trace(), op).q, depth, log)
  {
    RunNext(s, op);
    var s' := if op.PopOp? then s.Do(op) else s.Do(op).CloseAt(|log|);
    assert s'.Trace() == s.Do(op).Trace();
    assert Expected(s', depth, log) == Expected(s, depth, log);
  }

  lemma OneSubscriberChanges<T>(h: History<T>, i: nat, q: Queue<T>, s: Subscriber<T>)
    requires Inv(h) && i < |h.subs| && Served(s, q, h.t.depth, h.log) && (q.closed || !h.t.queues[i].closed)
    ensures Inv(h.(t := h.t.(queues := h.t.queues[i := q]), subs := h.subs[i := s]))
  {
    assert q.closed || i in h.t.members;
  }

  lemma TouchKeepsInv<T>(h: History<T>, call: Call<T>)
    requires Inv(h) && Enabled(h, call) && !call.Publish? && !call.Subscribe?
    ensures Inv(Apply(h, call))
  {
    var i, h' := call.i, Apply(h, call);
    DoServes(h.subs[i], h.t.queues[i], h.t.depth, h.log,
             match call case Pop(_) => PopOp case Close(_) => CloseOp case _ => UnsubscribeOp);
    OneSubscriberChanges(h, i, h'.t.queues[i], h'.subs[i]);
  }

  lemma StepKeepsInv<T>(h: History<T>, call: Call<T>)
    requires Inv(h) && Enabled(h, call)
    ensures Inv(Apply(h, call))
  {
    match call
    case Publish(x, durable) => PublishKeepsInv(h, x, durable);
    case Subscribe(durable, capacity, policy) => SubscribeKeepsInv(h, durable, capacity, policy);
    case _ => TouchKeepsInv(h, call);
  }

  ghost function Exec<T>(historyDepth: nat, calls: seq<Call<T>>): (h: Option<History<T>>)
    ensures h.Some? ==> Inv(h.value)
  {
    if calls == [] then Some(History(NewTopic(historyDepth), [], []))
    else
      match Exec(historyDepth, calls[..|calls| - 1])
      case None => None
      case Some(h) =>
        var call := calls[|calls| - 1];
        if !Enabled(h, call) then None
        else
          StepKeepsInv(h, call);
          Some(Apply(h, call))
  }

  /** In every run: what a subscriber's queue was offered is, on a TransientLocal subscription, the last
      `depth` TransientLocal samples published before it joined, then every sample published since, until
      it closed; with no gap and no repeat where the two meet. What it then consumes is, in order, a
      subsequence of that. */
  lemma LateJoinerStream<T>(historyDepth: nat, calls: seq<Call<T>>, h: History<T>, i: nat)
    requires Exec(historyDepth, calls) == Some(h) && i < |h.subs|
    ensures Served(h.subs[i], h.t.queues[i], h.t.depth, h.log)
    ensures var t := h.subs[i].Trace();
            Sane(t) && Subsequence(Popped(t) + h.t.queues[i].items, Expected(h.subs[i], h.t.depth, h.log))
  {
    assert Inv(h);
    LossyFifo(h.subs[i].capacity, h.subs[i].policy, h.subs[i].ops);
  }

  lemma {:induction false} DepthStays<T>(historyDepth: nat, calls: seq<Call<T>>)
    requires Exec(historyDepth, calls).Some?
    ensures Exec(historyDepth, calls).value.t.depth == Max(historyDepth, 1)
  {
    if calls != [] {
      DepthStays(historyDepth, calls[..|calls| - 1]);
    }
  }

  // ---------------------------------------------------------------------------
  // Conservation
  // ---------------------------------------------------------------------------

  ghost function NotClosed<T>(queues: seq<Queue<T>>): set<nat> {
    set i: nat | i < |queues| && !queues[i].closed
  }

  /** The sum, over the publishes, of the subscribers not closed at the time. */
  ghost function Owed<T>(historyDepth: nat, calls: seq<Call<T>>): nat
    requires Exec(historyDepth, calls).Some?
  {
    if calls == [] then 0
    else
      var init, last := calls[..|calls| - 1], calls[|calls| - 1];
      Owed(historyDepth, init) + if last.Publish? then |NotClosed(Exec(historyDepth, init).value.t.queues)| else 0
  }

  lemma {:induction false} DistinctSize(at: seq<nat>, n: nat, s: set<nat>)
    requires Picks(at, n) && forall i :: i in s <==> i in at
    ensures |s| == |at|
  {
    if at == [] {
      assert s == {};
    } else {
      var k := |at| - 1;
      var init, last := at[..k], at[k];
      assert at == init + [last];
      assert last !in init;
      DistinctSize(init, n, s - {last});
    }
  }

  lemma PublishCounts<T>(t: Topic<T>, x: T, durable: bool)
    requires Listed(t)
    ensures Published(t, x, durable).delivers + Published(t, x, durable).drops
            == t.delivers + t.drops + |NotClosed(t.queues)|
  {
    var open := OpenOf(t.queues, t.members, |t.members|);
    OpenIsNotClosed(t);
    DistinctSize(open, |t.queues|, NotClosed(t.queues));
  }

  /** Over every run, deliveries and drops add up to the sum over publishes of the subscribers that were
      not closed; and every publish is counted as one write. */
  lemma {:induction false} DeliveriesAndDropsAddUp<T>(historyDepth: nat, calls: seq<Call<T>>)
    requires Exec(historyDepth, calls).Some?
    ensures var h := Exec(historyDepth, calls).value;
            h.t.delivers + h.t.drops == Owed(historyDepth, calls) && h.t.writes == |h.log|
  {
    if calls != [] {
      var init, last := calls[..|calls| - 1], calls[|calls| - 1];
      DeliveriesAndDropsAddUp(historyDepth, init);
      var h := Exec(historyDepth, init).value;
      if last.Publish? {
        PublishCounts(h.t, last.x, last.durable);
      }
    }
  }

  /** Those of the first `k` members that refuse a push. */
  ghost function FullOf<T>(queues: seq<Queue<T>>, members: seq<nat>, k: nat): (full: seq<nat>)
    requires k <= |members| && Below(members, |queues|)
    ensures Below(full, |queues|)
  {
    if k == 0 then []
    else if !queues[members[k - 1]].Refuses() then FullOf(queues, members, k - 1)
    else FullOf(queues, members, k - 1) + [members[k - 1]]
  }

  lemma {:induction false} FullOfMeaning<T>(queues: seq<Queue<T>>, members: seq<nat>, k: nat)
    requires k <= |members| && Picks(members, |queues|)
    ensures var full := FullOf(queues, members, k);
            && Picks(full, |queues|)
            && (k > 0 && full != [] ==> full[|full| - 1] <= members[k - 1])
            && (forall i <- full :: queues[i].Refuses() && i in members)
            && forall j | 0 <= j < k && queues[members[j]].Refuses() :: members[j] in full
  {
    if k > 0 {
      FullOfMeaning(queues, members, k - 1);
    }
  }

  lemma {:induction false} RefusingCounts<T>(queues: seq<Queue<T>>, members: seq<nat>, k: nat, x: T)
    requires k <= |members| && Picks(members, |queues|)
    ensures Refusing(queues, members, k, x) == |FullOf(queues, members, k)|
  {
    if k > 0 {
      RefusingCounts(queues, members, k - 1, x);
      PushEachMeaning(queues, members, k - 1, x);
    }
  }

  /** A publish drops exactly at the subscribers that are not closed but have no room. */
  lemma PublishDrops<T>(t: Topic<T>, x: T, durable: bool)
    requires Listed(t)
    ensures Published(t, x, durable).drops
            == t.drops + |set i: nat | i < |t.queues| && !t.queues[i].closed && t.queues[i].Refuses()|
  {
    var open := OpenOf(t.queues, t.members, |t.members|);
    OpenOfMeaning(t.queues, t.members, |t.members|);
    FullOfMeaning(t.queues, open, |open|);
    RefusingCounts(t.queues, open, |open|, x);
    var full := set i: nat | i < |t.queues| && !t.queues[i].closed && t.queues[i].Refuses();
    forall i | i in full
      ensures i in FullOf(t.queues, open, |open|)
    {
      var j :| 0 <= j < |t.members| && t.members[j] == i;
      assert t.members[j] in open;
      var k :| 0 <= k < |open| && open[k] == i;
    }
    DistinctSize(FullOf(t.queues, open, |open|), |t.queues|, full);
  }
}
