/** The in-process broker: fan-out to bounded queues, and a cache replayed to late joiners. */
module Broker {
  import opened Wrappers
  import opened Queues

  // ---------------------------------------------------------------------------
  // One topic, as values
  // ---------------------------------------------------------------------------

  /** A topic. `queues` are those of all subscribers there ever were, in order of creation; `members`
      are the numbers of those still listed. */
  datatype Topic<T> = Topic(
    queues: seq<Queue<T>>, members: seq<nat>, cache: seq<T>, depth: nat, writes: nat, delivers: nat, drops: nat)

  ghost predicate Below(members: seq<nat>, n: nat) {
    forall k | 0 <= k < |members| :: members[k] < n
  }

  ghost predicate Valid<T>(t: Topic<T>) {
    Picks(t.members, |t.queues|)
  }

  function NewTopic<T>(historyDepth: nat): Topic<T> {
    Topic([], [], [], Max(historyDepth, 1), 0, 0, 0)
  }

  function Cached<T>(cache: seq<T>, depth: nat, x: T): seq<T> {
    if depth == 0 then cache
    else (if |cache| >= depth && cache != [] then cache[1..] else cache) + [x]
  }

  /** Those of the first `k` members whose queue is not closed. */
  ghost function OpenOf<T>(queues: seq<Queue<T>>, members: seq<nat>, k: nat): (open: seq<nat>)
    requires k <= |members| && Below(members, |queues|)
    ensures Below(open, |queues|)
  {
    if k == 0 then []
    else if queues[members[k - 1]].closed then OpenOf(queues, members, k - 1)
    else OpenOf(queues, members, k - 1) + [members[k - 1]]
  }

  /** The queues once `x` is pushed to those of the first `k` members in turn. */
  ghost function PushEach<T>(queues: seq<Queue<T>>, members: seq<nat>, k: nat, x: T): (r: seq<Queue<T>>)
    requires k <= |members| && Below(members, |queues|)
    ensures |r| == |queues|
  {
    if k == 0 then queues
    else
      var r := PushEach(queues, members, k - 1, x);
      r[members[k - 1] := r[members[k - 1]].Push(x)]
  }

  /** How many of those pushes are refused. */
  ghost function Refusing<T>(queues: seq<Queue<T>>, members: seq<nat>, k: nat, x: T): (n: nat)
    requires k <= |members| && Below(members, |queues|)
    ensures n <= k
  {
    if k == 0 then 0
    else
      Refusing(queues, members, k - 1, x)
      + if PushEach(queues, members, k - 1, x)[members[k - 1]].Refuses() then 1 else 0
  }

  /** A write is counted, and kept for late joiners when it is TransientLocal. */
  function Written<T>(t: Topic<T>, x: T, durable: bool): Topic<T> {
    t.(cache := if durable then Cached(t.cache, t.depth, x) else t.cache, writes := t.writes + 1)
  }

  ghost function Retained<T>(t: Topic<T>): (r: Topic<T>)
    requires Below(t.members, |t.queues|)
    ensures Below(r.members, |r.queues|)
  {
    t.(members := OpenOf(t.queues, t.members, |t.members|))
  }

  ghost function Offered<T>(t: Topic<T>, x: T): Topic<T>
    requires Below(t.members, |t.queues|)
  {
    var n := |t.members|;
    var refusing := Refusing(t.queues, t.members, n, x);
    t.(queues := PushEach(t.queues, t.members, n, x), delivers := t.delivers + n - refusing, drops := t.drops + refusing)
  }

  ghost function Published<T>(t: Topic<T>, x: T, durable: bool): Topic<T>
    requires Below(t.members, |t.queues|)
  {
    Offered(Retained(Written(t, x, durable)), x)
  }

  function PushAll<T>(q: Queue<T>, xs: seq<T>): Queue<T> {
    if xs == [] then q else PushAll(q, xs[..|xs| - 1]).Push(xs[|xs| - 1])
  }

  function Subscribed<T>(t: Topic<T>, durable: bool, capacity: nat, policy: Policy): Topic<T> {
    var q := PushAll(NewQueue(capacity, policy), if durable then t.cache else []);
    t.(queues := t.queues + [q], members := t.members + [|t.queues|])
  }

  // ---------------------------------------------------------------------------
  // One topic, as the code keeps it
  // ---------------------------------------------------------------------------

  class TopicState<T> {
    var subscribers: seq<SubInner<T>>
    var cache: seq<T>
    const historyDepth: nat
    var writes: nat
    var delivers: nat
    var drops: nat
    /** Every subscriber there ever was, and the places of the listed ones among them. */
    ghost var everyone: seq<SubInner<T>>
    ghost var members: seq<nat>

    constructor (historyDepth: nat)
      ensures Valid() && View() == NewTopic<T>(historyDepth)
    {
      subscribers, cache, everyone, members := [], [], [], [];
      writes, delivers, drops := 0, 0, 0;
      this.historyDepth := Max(historyDepth, 1);
    }

    ghost predicate Valid()
      reads this`subscribers, this`members, this`everyone
    {
      && Below(members, |everyone|) && |subscribers| == |members|
      && (forall k | 0 <= k < |members| :: subscribers[k] == everyone[members[k]])
      && forall i, j | 0 <= i < j < |everyone| :: everyone[i] != everyone[j]
    }

    ghost function Queues(): (qs: seq<Queue<T>>)
      reads this`everyone, everyone
      ensures |qs| == |everyone|
    {
      var all := everyone;
      seq(|all|, i requires 0 <= i < |all| reads all => all[i].View())
    }

    ghost function View(): Topic<T>
      reads this, everyone
    {
      Topic(Queues(), members, cache, historyDepth, writes, delivers, drops)
    }

    method PushToCache(x: T)
      modifies this`cache
      ensures cache == Cached(old(cache), historyDepth, x)
    {
      if historyDepth > 0 {
        if |cache| >= historyDepth && cache != [] {
          cache := cache[1..];
        }
        cache := cache + [x];
      }
    }

    /** Drops the closed subscribers from the list. */
    method Retain()
      requires Valid()
      modifies this`subscribers, this`members
      ensures Valid() && everyone == old(everyone) && View() == Retained(old(View()))
    {
      var kept := [];
      ghost var keptAt := [];
      var listed := subscribers;
      ghost var was, queues := members, Queues();
      for k := 0 to |listed|
        invariant |kept| == |keptAt| && keptAt == OpenOf(queues, was, k)
        invariant forall j | 0 <= j < |kept| :: kept[j] == everyone[keptAt[j]]
      {
        assert queues[was[k]] == listed[k].View();
        if !listed[k].closed {
          kept := kept + [listed[k]];
          keptAt := keptAt + [was[k]];
        }
      }
      subscribers, members := kept, keptAt;
      assert Queues() == queues;
    }

    /** One turn of the loop of `Publish`. */
    method PushTo(sub: SubInner<T>, x: T)
      modifies this`delivers, this`drops, sub`queue
      ensures sub.View() == old(sub.View()).Push(x)
      ensures var refused := if old(sub.View()).Refuses() then 1 else 0;
              delivers == old(delivers) + 1 - refused && drops == old(drops) + refused
    {
      var accepted := sub.Push(x);
      if accepted {
        delivers := delivers + 1;
      } else {
        drops := drops + 1;
      }
    }

    ghost predicate SameList(subs: seq<SubInner<T>>, all: seq<SubInner<T>>, ms: seq<nat>, c: seq<T>, w: nat)
      reads this
    {
      subscribers == subs && everyone == all && members == ms && cache == c && writes == w
    }

    method PushToAll(x: T)
      requires Valid()
      modifies this`delivers, this`drops, everyone
      ensures SameList(old(subscribers), old(everyone), old(members), old(cache), old(writes))
      ensures View() == Offered(old(View()), x)
    {
      ghost var before := Queues();
      for k := 0 to |subscribers|
        invariant SameList(old(subscribers), old(everyone), old(members), old(cache), old(writes))
        invariant Queues() == PushEach(before, members, k, x)
        invariant delivers == old(delivers) + k - Refusing(before, members, k, x)
        invariant drops == old(drops) + Refusing(before, members, k, x)
      {
        ghost var part := Queues();
        PushTo(subscribers[k], x);
        assert Queues() == part[members[k] := part[members[k]].Push(x)];
      }
    }

    method Publish(x: T, durable: bool)
      requires Valid()
      modifies this, everyone
      ensures Valid() && everyone == old(everyone)
      ensures View() == Published(old(View()), x, durable)
    {
      ghost var t := View();
      writes := writes + 1;
      if durable {
        PushToCache(x);
      }
      assert Queues() == t.queues;
      assert View() == Written(t, x, durable);
      Retain();
      PushToAll(x);
    }

    method Subscribe(durable: bool, capacity: nat, policy: Policy) returns (inner: SubInner<T>)
      requires Valid()
      modifies this
      ensures Valid() && fresh(inner) && everyone == old(everyone) + [inner]
      ensures View() == Subscribed(old(View()), durable, capacity, policy)
    {
      inner := new SubInner<T>(capacity, policy);
      if durable {
        ghost var replay := cache;
        for k := 0 to |cache|
          invariant inner.View() == PushAll(NewQueue(capacity, policy), replay[..k])
          invariant fresh(inner) && unchanged(this) && cache == replay
        {
          assert replay[..k + 1][..k] == replay[..k];
          var accepted := inner.Push(cache[k]);
        }
        assert cache[..|cache|] == cache;
      }
      subscribers := subscribers + [inner];
      members := members + [|everyone|];
      everyone := everyone + [inner];
    }
  }
}
