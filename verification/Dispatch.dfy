/** Handing a received sample to the local readers that take it. */
module Dispatch {
  import opened Wrappers
  import opened Bytes
  import opened Ids
  import opened Messages
  import opened Fragments
  import opened Queues
  import opened DataPath
  import M = Matching

  datatype Sample = Sample(topic: M.Topic, payload: seq<byte>, sn: U64, writer: Guid)

  /** A local reader: its topic (possibly a pattern), its matched remote writers and its queue. */
  datatype Reader = Reader(topic: M.Topic, sources: set<Guid>, queue: Queue<Sample>)

  type ReaderTable = map<EntityId, Reader>

  // ---------------------------------------------------------------------------
  // Topic patterns
  // ---------------------------------------------------------------------------

  /** The levels of a topic name, between slashes. */
  function Levels(topic: string): (levels: seq<string>)
    ensures levels != []
  {
    if topic == "" then [""]
    else
      var rest := Levels(topic[1..]);
      if topic[0] == '/' then [""] + rest else [[topic[0]] + rest[0]] + rest[1..]
  }

  function Join(levels: seq<string>): string
    requires levels != []
  {
    if |levels| == 1 then levels[0] else levels[0] + "/" + Join(levels[1..])
  }

  ghost predicate SlashFree(levels: seq<string>) {
    forall i | 0 <= i < |levels| :: '/' !in levels[i]
  }

  lemma JoinHead(c: char, first: string, others: seq<string>)
    ensures Join([[c] + first] + others) == [c] + Join([first] + others)
  {
    if others != [] {
      assert ([[c] + first] + others)[1..] == others && ([first] + others)[1..] == others;
      assert [c] + first + "/" + Join(others) == [c] + (first + "/" + Join(others));
    }
  }

  /** The levels are slash-free and, with slashes put back between them, are the topic. */
  lemma {:induction false} LevelsMeaning(topic: string)
    ensures Join(Levels(topic)) == topic && SlashFree(Levels(topic))
  {
    if topic != "" {
      var rest := Levels(topic[1..]);
      LevelsMeaning(topic[1..]);
      if topic[0] == '/' {
        assert ([""] + rest)[1..] == rest;
        assert Join([""] + rest) == "" + "/" + Join(rest);
      } else {
        JoinHead(topic[0], rest[0], rest[1..]);
        assert [rest[0]] + rest[1..] == rest;
      }
    }
  }

  predicate MatchSegments(pattern: seq<string>, levels: seq<string>) {
    if pattern == [] then levels == []
    else if pattern[0] == "#" then true
    else if levels == [] then false
    else if pattern[0] == "+" || pattern[0] == levels[0] then MatchSegments(pattern[1..], levels[1..])
    else false
  }

  predicate TopicMatches(pattern: string, topic: string) {
    MatchSegments(Levels(pattern), Levels(topic))
  }

  /** The first `n` levels agree, each literally or through `+`, with no `#` among them. */
  ghost predicate AgreeFor(pattern: seq<string>, levels: seq<string>, n: nat) {
    && n <= |pattern| && n <= |levels|
    && forall i | 0 <= i < n :: pattern[i] != "#" && (pattern[i] == "+" || pattern[i] == levels[i])
  }

  /** All levels agree, or they agree up to a `#`. */
  ghost predicate Agree(pattern: seq<string>, levels: seq<string>) {
    exists n: nat :: AgreeFor(pattern, levels, n) && (if n < |pattern| then pattern[n] == "#" else n == |levels|)
  }

  lemma TopicMatchesIff(pattern: string, topic: string)
    ensures TopicMatches(pattern, topic) <==> Agree(Levels(pattern), Levels(topic))
  {
    MatchMeaning(Levels(pattern), Levels(topic));
  }

  /** A pattern matches exactly when all levels agree, or they agree up to a `#`. */
  lemma {:induction false} MatchMeaning(pattern: seq<string>, levels: seq<string>)
    ensures MatchSegments(pattern, levels) <==>
            exists n: nat :: AgreeFor(pattern, levels, n)
                             && (if n < |pattern| then pattern[n] == "#" else n == |levels|)
  {
    if pattern == [] {
      assert levels == [] ==> AgreeFor(pattern, levels, 0);
    } else if pattern[0] == "#" {
      assert AgreeFor(pattern, levels, 0);
    } else if levels != [] {
      MatchMeaning(pattern[1..], levels[1..]);
      forall n: nat | n > 0 && AgreeFor(pattern, levels, n)
        ensures AgreeFor(pattern[1..], levels[1..], n - 1)
      {
      }
      forall n: nat | AgreeFor(pattern[1..], levels[1..], n) && (pattern[0] == "+" || pattern[0] == levels[0])
        ensures AgreeFor(pattern, levels, n + 1)
      {
      }
    }
  }

  // ---------------------------------------------------------------------------
  // Dispatch
  // ---------------------------------------------------------------------------

  /** A filter names the topic of a local writer; samples from the network carry none. */
  predicate Wants(r: Reader, own: GuidPrefix, source: Guid, filter: Option<M.Topic>) {
    && (filter.Some? ==> r.topic == filter.value || TopicMatches(r.topic, filter.value))
    && M.AcceptsSource(r.sources, own, source)
  }

  /** The reader is meant: its topic is the one named, if one is, exactly or as a pattern; and the writer is
      its own participant's or matched with it. */
  ghost predicate Meant(r: Reader, own: GuidPrefix, source: Guid, filter: Option<M.Topic>) {
    && (filter.None? || r.topic == filter.value || Agree(Levels(r.topic), Levels(filter.value)))
    && (source.prefix == own || source in r.sources)
  }

  lemma WantsIff(r: Reader, own: GuidPrefix, source: Guid, filter: Option<M.Topic>)
    ensures Wants(r, own, source, filter) <==> Meant(r, own, source, filter)
  {
    if filter.Some? {
      TopicMatchesIff(r.topic, filter.value);
    }
  }

  /** The sample added at the end of the reader's queue, under the reader's topic; nothing when the queue is
      closed, or at capacity and keeps its oldest. */
  ghost function WithSample(r: Reader, payload: seq<byte>, sn: U64, source: Guid): Reader {
    var q, x := r.queue, Sample(r.topic, payload, sn, source);
    if !HasRoom(r) then r
    else if |q.items| < q.capacity || q.items == [] then r.(queue := q.(items := q.items + [x]))
    else r.(queue := q.(items := q.items[1..] + [x]))
  }

  ghost predicate HasRoom(r: Reader) {
    !r.queue.closed && !r.queue.unsubscribed && (r.queue.policy == DropOldest || |r.queue.items| < r.queue.capacity)
  }

  function Given(r: Reader, payload: seq<byte>, sn: U64, source: Guid): Reader {
    r.(queue := r.queue.Push(Sample(r.topic, payload, sn, source)))
  }

  function After(r: Reader, own: GuidPrefix, source: Guid, filter: Option<M.Topic>, payload: seq<byte>, sn: U64): Reader {
    if Wants(r, own, source, filter) then Given(r, payload, sn, source) else r
  }

  /** Every reader that wants the sample is given it once; the others stay as they are. */
  function Dispatched(readers: ReaderTable, own: GuidPrefix, source: Guid, filter: Option<M.Topic>,
                      payload: seq<byte>, sn: U64): ReaderTable {
    map e | e in readers :: After(readers[e], own, source, filter, payload, sn)
  }

  /** The readers that want the sample and have, or have not, room for it. */
  function Wanting(readers: ReaderTable, own: GuidPrefix, source: Guid, filter: Option<M.Topic>, room: bool): set<EntityId> {
    set e | e in readers && Wants(readers[e], own, source, filter) && readers[e].queue.Refuses() == !room
  }

  /** The readers outside `left` have been dispatched to, those in it not yet. */
  ghost predicate PartDone(all: ReaderTable, readers: ReaderTable, left: set<EntityId>, own: GuidPrefix, source: Guid,
                           filter: Option<M.Topic>, payload: seq<byte>, sn: U64) {
    readers == map e | e in all :: if e in left then all[e] else After(all[e], own, source, filter, payload, sn)
  }

  lemma NoneDone(all: ReaderTable, own: GuidPrefix, source: Guid, filter: Option<M.Topic>, payload: seq<byte>, sn: U64)
    ensures PartDone(all, all, all.Keys, own, source, filter, payload, sn)
  {
  }

  lemma PartNext(all: ReaderTable, readers: ReaderTable, left: set<EntityId>, e: EntityId, own: GuidPrefix, source: Guid,
                 filter: Option<M.Topic>, payload: seq<byte>, sn: U64)
    requires PartDone(all, readers, left, own, source, filter, payload, sn) && e in left && left <= all.Keys
    ensures e in readers && readers[e] == all[e]
    ensures forall room :: e in Wanting(readers, own, source, filter, room) <==> e in Wanting(all, own, source, filter, room)
    ensures PartDone(all, readers[e := After(readers[e], own, source, filter, payload, sn)], left - {e},
                     own, source, filter, payload, sn)
  {
  }

  lemma AllDone(all: ReaderTable, readers: ReaderTable, own: GuidPrefix, source: Guid, filter: Option<M.Topic>,
                payload: seq<byte>, sn: U64)
    requires PartDone(all, readers, {}, own, source, filter, payload, sn)
    ensures readers == Dispatched(all, own, source, filter, payload, sn)
  {
  }

  lemma Wanted(all: ReaderTable, s: set<EntityId>, own: GuidPrefix, source: Guid, filter: Option<M.Topic>, room: bool)
    requires s == Wanting(all, own, source, filter, room)
    ensures s - all.Keys == {} && s - {} == s
  {
  }

  lemma OneFewer<T>(s: set<T>, left: set<T>, e: T)
    requires e in left
    ensures |s - (left - {e})| == |s - left| + if e in s then 1 else 0
  {
    if e in s {
      assert s - (left - {e}) == (s - left) + {e};
    } else {
      assert s - (left - {e}) == s - left;
    }
  }

  class Dispatcher {
    const own: GuidPrefix
    var readers: ReaderTable
    var delivers: nat
    var drops: nat

    constructor (own: GuidPrefix)
      ensures this.own == own && readers == map[] && delivers == drops == 0
    {
      this.own, readers, delivers, drops := own, map[], 0, 0;
    }

    /** One turn of the loop of `DispatchToReaders`. */
    method DispatchTo(e: EntityId, source: Guid, filter: Option<M.Topic>, payload: seq<byte>, sn: U64)
      requires e in readers
      modifies this
      ensures readers == old(readers)[e := After(old(readers)[e], own, source, filter, payload, sn)]
      ensures delivers == old(delivers) + if e in Wanting(old(readers), own, source, filter, true) then 1 else 0
      ensures drops == old(drops) + if e in Wanting(old(readers), own, source, filter, false) then 1 else 0
    {
      var r := readers[e];
      if filter.Some? && r.topic != filter.value && !TopicMatches(r.topic, filter.value) {
        return;
      }
      if !M.AcceptsSource(r.sources, own, source) {
        return;
      }
      var sample := Sample(r.topic, payload, sn, source);
      readers := readers[e := r.(queue := r.queue.Push(sample))];
      if r.queue.Refuses() {
        drops := drops + 1;
      } else {
        delivers := delivers + 1;
      }
    }

    method DispatchToReaders(source: Guid, filter: Option<M.Topic>, payload: seq<byte>, sn: U64)
      modifies this
      ensures readers == Dispatched(old(readers), own, source, filter, payload, sn)
      ensures delivers == old(delivers) + |Wanting(old(readers), own, source, filter, true)|
      ensures drops == old(drops) + |Wanting(old(readers), own, source, filter, false)|
      ensures readers.Keys == old(readers).Keys
      ensures forall e <- readers ::
        readers[e] == if Meant(old(readers)[e], own, source, filter) then WithSample(old(readers)[e], payload, sn, source)
                      else old(readers)[e]
      ensures delivers == old(delivers)
                          + |set e | e in old(readers) && Meant(old(readers)[e], own, source, filter) && HasRoom(old(readers)[e])|
      ensures drops == old(drops)
                       + |set e | e in old(readers) && Meant(old(readers)[e], own, source, filter) && !HasRoom(old(readers)[e])|
    {
      var left := readers.Keys;
      ghost var all := readers;
      ghost var takers, droppers := Wanting(all, own, source, filter, true), Wanting(all, own, source, filter, false);
      NoneDone(all, own, source, filter, payload, sn);
      Wanted(all, takers, own, source, filter, true);
      Wanted(all, droppers, own, source, filter, false);
      while left != {}
        invariant left <= all.Keys && PartDone(all, readers, left, own, source, filter, payload, sn)
        invariant delivers == old(delivers) + |takers - left| && drops == old(drops) + |droppers - left|
        decreases left
      {
        var e :| e in left;
        OneFewer(takers, left, e);
        OneFewer(droppers, left, e);
        PartNext(all, readers, left, e, own, source, filter, payload, sn);
        left := left - {e};
        DispatchTo(e, source, filter, payload, sn);
      }
      AllDone(all, readers, own, source, filter, payload, sn);
      DispatchedMeaning(all, own, source, filter, payload, sn);
      WantingMeaning(all, own, source, filter);
    }
  }

  lemma AfterMeaning(r: Reader, own: GuidPrefix, source: Guid, filter: Option<M.Topic>, payload: seq<byte>, sn: U64)
    ensures After(r, own, source, filter, payload, sn)
            == if Meant(r, own, source, filter) then WithSample(r, payload, sn, source) else r
  {
    WantsIff(r, own, source, filter);
    PushMeaning(r.queue, Sample(r.topic, payload, sn, source));
  }

  lemma DispatchedMeaning(readers: ReaderTable, own: GuidPrefix, source: Guid, filter: Option<M.Topic>,
                          payload: seq<byte>, sn: U64)
    ensures forall e <- readers ::
      Dispatched(readers, own, source, filter, payload, sn)[e]
      == if Meant(readers[e], own, source, filter) then WithSample(readers[e], payload, sn, source) else readers[e]
  {
    forall e <- readers
      ensures After(readers[e], own, source, filter, payload, sn)
              == if Meant(readers[e], own, source, filter) then WithSample(readers[e], payload, sn, source) else readers[e]
    {
      AfterMeaning(readers[e], own, source, filter, payload, sn);
    }
  }

  lemma WantingMeaning(readers: ReaderTable, own: GuidPrefix, source: Guid, filter: Option<M.Topic>)
    ensures Wanting(readers, own, source, filter, true)
            == set e | e in readers && Meant(readers[e], own, source, filter) && HasRoom(readers[e])
    ensures Wanting(readers, own, source, filter, false)
            == set e | e in readers && Meant(readers[e], own, source, filter) && !HasRoom(readers[e])
  {
    forall e <- readers
      ensures Wants(readers[e], own, source, filter) <==> Meant(readers[e], own, source, filter)
    {
      WantsIff(readers[e], own, source, filter);
    }
  }

  /** The samples among the events of a datagram, dispatched in turn. */
  function OnEvents(readers: ReaderTable, own: GuidPrefix, events: seq<Event>): ReaderTable {
    if events == [] then readers
    else
      var before := OnEvents(readers, own, events[..|events| - 1]);
      match events[|events| - 1]
      case SampleFrom(source, sn, payload) => Dispatched(before, own, source, None, payload, sn)
      case _ => before
  }

  /** One write on one participant: whatever order its datagrams arrive in, each once, every local
      reader that accepts the writer is given the sample exactly once, with the written octets and
      number, and no other reader changes. */
  lemma WriteReachesReaders(
    h: Header, eid: EntityId, sn: U64, payload: seq<byte>, own: GuidPrefix, start: Buffers, readers: ReaderTable,
    msgs: seq<seq<byte>>, order: seq<nat>, times: seq<nat>, packets: seq<(seq<byte>, nat)>)
    requires h.prefix != own && FragKey(eid, FromU64(sn).low) !in start
    requires |payload| + 4 <= 16 * 1024 * 1024
    requires SentAs(h, eid, sn, payload, msgs) && Arrive(msgs, order, times, packets)
    ensures !Deliver(own, start, packets).panicked
    ensures var after := OnEvents(readers, own, Deliver(own, start, packets).events);
            && after.Keys == readers.Keys
            && forall e <- readers ::
              after[e] == if Guid(h.prefix, eid) in readers[e].sources
                          then WithSample(readers[e], payload, sn, Guid(h.prefix, eid)) else readers[e]
  {
    WriteDelivers(h, eid, sn, payload, own, start, msgs, order, times, packets);
    OneEvent(readers, own, Guid(h.prefix, eid), sn, payload);
    DispatchedMeaning(readers, own, Guid(h.prefix, eid), None, payload, sn);
  }

  /** And within the participant: a local write is given to every reader whose topic is the writer's,
      exactly or as a pattern, and to no other. */
  lemma LocalWriteReachesReaders(readers: ReaderTable, own: GuidPrefix, eid: EntityId, topic: M.Topic,
                                 payload: seq<byte>, sn: U64)
    ensures var after := Dispatched(readers, own, Guid(own, eid), Some(topic), payload, sn);
            && after.Keys == readers.Keys
            && forall e <- readers ::
              after[e] == if readers[e].topic == topic || Agree(Levels(readers[e].topic), Levels(topic))
                          then WithSample(readers[e], payload, sn, Guid(own, eid)) else readers[e]
  {
    DispatchedMeaning(readers, own, Guid(own, eid), Some(topic), payload, sn);
  }

  lemma OneEvent(readers: ReaderTable, own: GuidPrefix, source: Guid, sn: U64, payload: seq<byte>)
    ensures OnEvents(readers, own, [SampleFrom(source, sn, payload)])
            == Dispatched(readers, own, source, None, payload, sn)
  {
    var events := [SampleFrom(source, sn, payload)];
    assert events[..0] == [];
    assert OnEvents(readers, own, events[..0]) == readers;
  }
}
