/**
 Endpoint matching as a concurrent protocol. Registering a local reader and discovering a remote
 writer each insert their own entry first and scan the other table second; a discovery tells the
 participant about the readers it found through a channel that a listener task drains. Every
 insert, scan, send and delivery is one step, and all tasks interleave freely.
 */
module Matching {
  import opened Wrappers
  import opened Ids

  type Topic = string

  // ---------------------------------------------------------------------------
  // The tables and their scans
  // ---------------------------------------------------------------------------

  function WritersOn(writers: map<Guid, Topic>, topic: Topic): set<Guid> {
    set g | g in writers && writers[g] == topic
  }

  function ReadersOn(readers: map<EntityId, Topic>, topic: Topic): set<EntityId> {
    set e | e in readers && readers[e] == topic
  }

  function WithoutPeer(writers: map<Guid, Topic>, prefix: GuidPrefix): map<Guid, Topic> {
    map g | g in writers && g.prefix != prefix :: writers[g]
  }

  /** Whether a reader takes samples from a writer: its own participant's always, a remote one's only
      when matched. */
  function AcceptsSource(sources: set<Guid>, own: GuidPrefix, source: Guid): bool {
    if sources == {} then source.prefix == own
    else if source.prefix == own then true
    else source in sources
  }

  /** Local writers are always accepted, remote ones exactly when matched. */
  lemma AcceptsSourceIff(sources: set<Guid>, own: GuidPrefix, source: Guid)
    ensures AcceptsSource(sources, own, source) <==> source.prefix == own || source in sources
  {
  }

  class SedpService {
    var localReaders: map<EntityId, Topic>
    var remoteWriters: map<Guid, Topic>
    var endpointMatches: nat

    constructor ()
      ensures localReaders == map[] && remoteWriters == map[] && endpointMatches == 0
    {
      localReaders, remoteWriters, endpointMatches := map[], map[], 0;
    }

    method ListReader(eid: EntityId, topic: Topic)
      modifies this`localReaders
      ensures localReaders == old(localReaders)[eid := topic]
    {
      localReaders := localReaders[eid := topic];
    }

    method RecordWriter(guid: Guid, topic: Topic)
      modifies this`remoteWriters
      ensures remoteWriters == old(remoteWriters)[guid := topic]
    {
      remoteWriters := remoteWriters[guid := topic];
    }

    method ScanWriters(topic: Topic) returns (matched: set<Guid>)
      ensures matched == WritersOn(remoteWriters, topic)
    {
      matched := {};
      var left := remoteWriters.Keys;
      while left != {}
        invariant left <= remoteWriters.Keys
        invariant matched == set g | g in remoteWriters && remoteWriters[g] == topic && g !in left
        decreases left
      {
        var g :| g in left;
        left := left - {g};
        if remoteWriters[g] == topic {
          matched := matched + {g};
        }
      }
    }

    method ScanReaders(topic: Topic) returns (matched: set<EntityId>)
      modifies this`endpointMatches
      ensures matched == ReadersOn(localReaders, topic)
      ensures endpointMatches == old(endpointMatches) + |matched|
    {
      matched := {};
      var left := localReaders.Keys;
      while left != {}
        invariant left <= localReaders.Keys
        invariant matched == set e | e in localReaders && localReaders[e] == topic && e !in left
        invariant endpointMatches == old(endpointMatches) + |matched|
        decreases left
      {
        var e :| e in left;
        left := left - {e};
        if localReaders[e] == topic {
          endpointMatches := endpointMatches + 1;
          matched := matched + {e};
        }
      }
    }

    /** Forgets the peer's writers and nothing else. */
    method EvictPeer(prefix: GuidPrefix)
      modifies this`remoteWriters
      ensures forall g :: g in remoteWriters <==> g in old(remoteWriters) && g.prefix != prefix
      ensures forall g <- remoteWriters :: remoteWriters[g] == old(remoteWriters)[g]
      ensures remoteWriters == WithoutPeer(old(remoteWriters), prefix)
    {
      var left := remoteWriters.Keys;
      ghost var all := remoteWriters;
      while left != {}
        invariant left <= all.Keys
        invariant forall g :: g in remoteWriters <==> g in all && (g in left || g.prefix != prefix)
        invariant forall g <- remoteWriters :: remoteWriters[g] == all[g]
        decreases left
      {
        var g :| g in left;
        left := left - {g};
        if g.prefix == prefix {
          remoteWriters := remoteWriters - {g};
        }
      }
    }
  }

  // ---------------------------------------------------------------------------
  // State and steps
  // ---------------------------------------------------------------------------

  datatype Registration =
    | Created
    | Listed
    | Scanned(matched: set<Guid>)
    | Registered

  datatype Progress =
    | Announced
    | Recorded
    | Matched(left: set<EntityId>)
    | Finished

  datatype Discovery = Discovery(guid: Guid, topic: Topic, progress: Progress)

  type TaskId = nat

  /** `topics`, `announced` and `pushed` are history variables: the topic each reader was created
      with, every writer announcement received, and every push of a remote sample. */
  datatype State = State(
    own: GuidPrefix,
    readers: set<EntityId>,
    sources: map<EntityId, set<Guid>>,
    localReaders: map<EntityId, Topic>,
    remoteWriters: map<Guid, Topic>,
    listener: bool,
    channel: seq<(EntityId, Guid)>,
    registrations: map<EntityId, Registration>,
    discoveries: map<TaskId, Discovery>,
    topics: map<EntityId, Topic>,
    announced: set<(Guid, Topic)>,
    pushed: set<(EntityId, Guid)>)

  function Init(own: GuidPrefix, listener: bool): State {
    State(own, {}, map[], map[], map[], listener, [], map[], map[], map[], {}, {})
  }

  datatype Step =
    | InstallListener
    | CreateReader(e: EntityId, topic: Topic)
    | ListReader(e: EntityId)
    | ScanWriters(e: EntityId)
    | AddSources(e: EntityId)
    | Announce(id: TaskId, guid: Guid, topic: Topic)
    | RecordWriter(id: TaskId)
    | ScanReaders(id: TaskId)
    | SendMatch(id: TaskId, e: EntityId)
    | Finish(id: TaskId)
    | Listen
    | Push(e: EntityId, source: Guid)
    | Unsubscribe(e: EntityId)
    | Evict(prefix: GuidPrefix)

  predicate Enabled(s: State, step: Step) {
    match step
    case InstallListener => true
    case CreateReader(e, _) => e !in s.registrations
    case ListReader(e) => e in s.registrations && s.registrations[e] == Created && e in s.topics
    case ScanWriters(e) => e in s.registrations && s.registrations[e] == Listed && e in s.topics
    case AddSources(e) => e in s.registrations && s.registrations[e].Scanned? && e in s.sources
    case Announce(id, _, topic) => id !in s.discoveries && topic != ""
    case RecordWriter(id) => id in s.discoveries && s.discoveries[id].progress == Announced
    case ScanReaders(id) => id in s.discoveries && s.discoveries[id].progress == Recorded
    case SendMatch(id, e) =>
      id in s.discoveries && s.discoveries[id].progress.Matched? && e in s.discoveries[id].progress.left
    case Finish(id) => id in s.discoveries && s.discoveries[id].progress == Matched({})
    case Listen => s.channel != []
    case Push(e, source) =>
      e in s.readers && e in s.sources && source.prefix != s.own && AcceptsSource(s.sources[e], s.own, source)
    case Unsubscribe(e) => e in s.registrations && s.registrations[e] == Registered && e in s.readers
    case Evict(_) => true
  }

  function AddSourcesTo(sources: map<EntityId, set<Guid>>, e: EntityId, more: set<Guid>): map<EntityId, set<Guid>>
    requires e in sources
  {
    sources[e := sources[e] + more]
  }

  function At(d: Discovery, p: Progress): Discovery {
    d.(progress := p)
  }

  function Apply(s: State, step: Step): State
    requires Enabled(s, step)
  {
    match step
    case InstallListener => s.(listener := true)
    case CreateReader(e, topic) =>
      s.(readers := s.readers + {e}, sources := s.sources[e := {}],
         registrations := s.registrations[e := Created], topics := s.topics[e := topic])
    case ListReader(e) =>
      s.(localReaders := s.localReaders[e := s.topics[e]], registrations := s.registrations[e := Listed])
    case ScanWriters(e) =>
      s.(registrations := s.registrations[e := Scanned(WritersOn(s.remoteWriters, s.topics[e]))])
    case AddSources(e) =>
      s.(sources := AddSourcesTo(s.sources, e, s.registrations[e].matched),
         registrations := s.registrations[e := Registered])
    case Announce(id, guid, topic) =>
      s.(discoveries := s.discoveries[id := Discovery(guid, topic, Announced)],
         announced := s.announced + {(guid, topic)})
    case RecordWriter(id) =>
      var d := s.discoveries[id];
      s.(remoteWriters := s.remoteWriters[d.guid := d.topic], discoveries := s.discoveries[id := At(d, Recorded)])
    case ScanReaders(id) =>
      var d := s.discoveries[id];
      s.(discoveries := s.discoveries[id := At(d, Matched(ReadersOn(s.localReaders, d.topic)))])
    case SendMatch(id, e) =>
      // Without a listener the event goes nowhere.
      var d := s.discoveries[id];
      s.(channel := if s.listener then s.channel + [(e, d.guid)] else s.channel,
         discoveries := s.discoveries[id := At(d, Matched(d.progress.left - {e}))])
    case Finish(id) =>
      s.(discoveries := s.discoveries[id := At(s.discoveries[id], Finished)])
    case Listen =>
      var (e, guid) := s.channel[0];
      s.(channel := s.channel[1..],
         sources := if e in s.readers && e in s.sources then AddSourcesTo(s.sources, e, {guid}) else s.sources)
    case Push(e, source) => s.(pushed := s.pushed + {(e, source)})
    case Unsubscribe(e) => s.(readers := s.readers - {e})
    case Evict(prefix) => s.(remoteWriters := WithoutPeer(s.remoteWriters, prefix))
  }

  function Exec(s: State, steps: seq<Step>): Option<State> {
    if steps == [] then Some(s)
    else
      match Exec(s, steps[..|steps| - 1])
      case None => None
      case Some(m) =>
        var last := steps[|steps| - 1];
        if Enabled(m, last) then Some(Apply(m, last)) else None
  }

  // ---------------------------------------------------------------------------
  // No match is lost
  // ---------------------------------------------------------------------------

  ghost predicate Shape(s: State) {
    && s.readers <= s.registrations.Keys == s.topics.Keys == s.sources.Keys
    && (forall e <- s.localReaders :: e in s.topics && s.localReaders[e] == s.topics[e])
    && forall e <- s.registrations :: s.registrations[e] != Created ==> e in s.localReaders
  }

  /** A discovery that will still tell reader `e` about its writer. */
  ghost predicate WillTell(d: Discovery, e: EntityId, guid: Guid, topic: Topic) {
    d.guid == guid && d.topic == topic && (d.progress == Recorded || (d.progress.Matched? && e in d.progress.left))
  }

  /** The match of reader `e` with writer `guid` is made or on its way. */
  ghost predicate Covered(s: State, e: EntityId, guid: Guid)
    requires Shape(s) && e in s.registrations
  {
    || guid in s.sources[e]
    || (e, guid) in s.channel
    || (s.registrations[e].Scanned? && guid in s.registrations[e].matched)
    || exists id :: id in s.discoveries && WillTell(s.discoveries[id], e, guid, s.topics[e])
  }

  ghost predicate PastScan(s: State, e: EntityId) {
    e in s.readers && e in s.registrations && (s.registrations[e].Scanned? || s.registrations[e].Registered?)
  }

  ghost predicate MatchInv(s: State) {
    && Shape(s)
    && forall e, guid | PastScan(s, e) && guid in s.remoteWriters && s.remoteWriters[guid] == s.topics[e] ::
      Covered(s, e, guid)
  }

  /** A step of a reader's own registration task. */
  predicate Registers(step: Step) {
    step.CreateReader? || step.ListReader? || step.ScanWriters? || step.AddSources?
  }

  lemma RegisterKeepsShape(s: State, step: Step)
    requires Shape(s) && Enabled(s, step) && (step.CreateReader? || step.ListReader?)
    ensures Shape(Apply(s, step))
  {
  }

  lemma MatchKeepsShape(s: State, step: Step)
    requires Shape(s) && Enabled(s, step) && (step.ScanWriters? || step.AddSources?)
    ensures Shape(Apply(s, step))
  {
  }

  lemma OthersLeaveRegistrations(s: State, step: Step)
    requires Enabled(s, step) && !Registers(step)
    ensures var s' := Apply(s, step);
            && s'.registrations == s.registrations && s'.topics == s.topics && s'.localReaders == s.localReaders
            && s'.sources.Keys == s.sources.Keys && s'.readers <= s.readers
  {
  }

  lemma StepKeepsShape(s: State, step: Step)
    requires Shape(s) && Enabled(s, step)
    ensures Shape(Apply(s, step))
  {
    if step.CreateReader? || step.ListReader? {
      RegisterKeepsShape(s, step);
    } else if Registers(step) {
      MatchKeepsShape(s, step);
    } else {
      OthersLeaveRegistrations(s, step);
    }
  }

  lemma OthersLeaveSources(s: State, step: Step)
    requires Enabled(s, step) && !step.CreateReader? && !step.AddSources? && !step.Listen?
    ensures Apply(s, step).sources == s.sources
  {
  }

  lemma SourcesGrow(s: State, step: Step, e: EntityId)
    requires Shape(s) && Enabled(s, step) && e in s.registrations
    ensures e in Apply(s, step).sources && s.sources[e] <= Apply(s, step).sources[e]
  {
    if !step.CreateReader? && !step.AddSources? && !step.Listen? {
      OthersLeaveSources(s, step);
    }
  }

  lemma ScanOutlastsRegistering(s: State, step: Step, e: EntityId)
    requires Shape(s) && Enabled(s, step) && e in s.registrations && s.registrations[e].Scanned? && Registers(step)
    ensures var s' := Apply(s, step);
            && e in s'.registrations && e in s'.sources
            && (s'.registrations[e] == s.registrations[e] || s.registrations[e].matched <= s'.sources[e])
  {
    if step == AddSources(e) {
      assert Apply(s, step).sources[e] == s.sources[e] + s.registrations[e].matched;
    }
  }

  lemma ScanStaysCovered(s: State, step: Step, e: EntityId)
    requires Shape(s) && Enabled(s, step) && e in s.registrations && s.registrations[e].Scanned?
    ensures var s' := Apply(s, step);
            && e in s'.registrations && e in s'.sources
            && (s'.registrations[e] == s.registrations[e] || s.registrations[e].matched <= s'.sources[e])
  {
    if Registers(step) {
      ScanOutlastsRegistering(s, step, e);
    } else {
      OthersLeaveRegistrations(s, step);
    }
  }

  lemma KnownStaysCovered(s: State, step: Step, e: EntityId, guid: Guid)
    requires Shape(s) && Enabled(s, step) && PastScan(s, e)
    requires guid in s.sources[e] || (s.registrations[e].Scanned? && guid in s.registrations[e].matched)
    ensures var s' := Apply(s, step);
            && e in s'.sources && e in s'.registrations
            && (guid in s'.sources[e] || (s'.registrations[e].Scanned? && guid in s'.registrations[e].matched))
  {
    if guid in s.sources[e] {
      SourcesGrow(s, step, e);
    } else {
      ScanStaysCovered(s, step, e);
    }
  }

  lemma QueuedStaysCovered(s: State, step: Step, e: EntityId, guid: Guid)
    requires Shape(s) && Enabled(s, step) && PastScan(s, e) && (e, guid) in s.channel
    ensures var s' := Apply(s, step);
            e in s'.sources && ((e, guid) in s'.channel || guid in s'.sources[e])
  {
    if step.Listen? {
      assert s.channel == [s.channel[0]] + s.channel[1..];
    }
  }

  lemma ToldStaysCovered(s: State, step: Step, e: EntityId, guid: Guid, id: TaskId)
    requires MatchInv(s) && Enabled(s, step) && (step.SendMatch? ==> s.listener) && PastScan(s, e)
    requires id in s.discoveries && WillTell(s.discoveries[id], e, guid, s.topics[e])
    ensures var s' := Apply(s, step);
            && id in s'.discoveries && e in s'.topics
            && (WillTell(s'.discoveries[id], e, guid, s'.topics[e]) || (e, guid) in s'.channel)
  {
    if step == SendMatch(id, e) {
      assert Apply(s, step).channel[|s.channel|] == (e, guid);
    }
  }

  lemma StepKeepsCovered(s: State, step: Step, e: EntityId, guid: Guid)
    requires MatchInv(s) && Enabled(s, step) && (step.SendMatch? ==> s.listener)
    requires PastScan(s, e) && Covered(s, e, guid)
    requires Shape(Apply(s, step)) && e in Apply(s, step).registrations
    ensures Covered(Apply(s, step), e, guid)
  {
    if guid in s.sources[e] || (s.registrations[e].Scanned? && guid in s.registrations[e].matched) {
      KnownStaysCovered(s, step, e, guid);
    } else if (e, guid) in s.channel {
      QueuedStaysCovered(s, step, e, guid);
    } else {
      var id :| id in s.discoveries && WillTell(s.discoveries[id], e, guid, s.topics[e]);
      ToldStaysCovered(s, step, e, guid, id);
    }
  }

  /** A pair that newly matters: the writer was recorded just now, and its discovery is yet to scan. */
  lemma JustRecorded(s: State, step: Step, e: EntityId, guid: Guid)
    requires MatchInv(s) && Enabled(s, step) && PastScan(s, e)
    requires var s' := Apply(s, step);
             && PastScan(s', e) && guid in s'.remoteWriters && e in s'.topics && s'.remoteWriters[guid] == s'.topics[e]
    requires !(guid in s.remoteWriters && s.remoteWriters[guid] == s.topics[e])
    requires Shape(Apply(s, step))
    ensures Covered(Apply(s, step), e, guid)
  {
    assert WillTell(Apply(s, step).discoveries[step.id], e, guid, Apply(s, step).topics[e]);
  }

  lemma OnlyScanningStarts(s: State, step: Step, e: EntityId)
    requires Shape(s) && Enabled(s, step) && !PastScan(s, e) && PastScan(Apply(s, step), e)
    ensures step == ScanWriters(e)
  {
    if !Registers(step) {
      OthersLeaveRegistrations(s, step);
    }
  }

  /** A reader that has only now scanned knows every writer recorded on its topic. */
  lemma JustScanned(s: State, step: Step, e: EntityId, guid: Guid)
    requires MatchInv(s) && Enabled(s, step) && !PastScan(s, e)
    requires var s' := Apply(s, step);
             && PastScan(s', e) && guid in s'.remoteWriters && e in s'.topics && s'.remoteWriters[guid] == s'.topics[e]
    requires Shape(Apply(s, step))
    ensures Covered(Apply(s, step), e, guid)
  {
    OnlyScanningStarts(s, step, e);
    assert guid in WritersOn(s.remoteWriters, s.topics[e]);
  }

  lemma StepKeepsMatchInv(s: State, step: Step)
    requires MatchInv(s) && Enabled(s, step) && (step.SendMatch? ==> s.listener)
    ensures MatchInv(Apply(s, step))
  {
    StepKeepsShape(s, step);
    var s' := Apply(s, step);
    forall e, guid | PastScan(s', e) && guid in s'.remoteWriters && s'.remoteWriters[guid] == s'.topics[e]
      ensures Covered(s', e, guid)
    {
      if !PastScan(s, e) {
        JustScanned(s, step, e, guid);
      } else if guid in s.remoteWriters && s.remoteWriters[guid] == s.topics[e] {
        StepKeepsCovered(s, step, e, guid);
      } else {
        JustRecorded(s, step, e, guid);
      }
    }
  }

  /** The listener is in place before the first event is sent. */
  ghost predicate ListenerFirst(listener: bool, steps: seq<Step>) {
    forall i | 0 <= i < |steps| && steps[i].SendMatch? :: listener || InstallListener in steps[..i]
  }

  lemma StepKeepsListener(s: State, step: Step)
    requires Enabled(s, step)
    ensures Apply(s, step).listener == (s.listener || step.InstallListener?)
  {
  }

  lemma {:induction false} ListenerStays(s: State, steps: seq<Step>)
    requires Exec(s, steps).Some? && (s.listener || InstallListener in steps)
    ensures Exec(s, steps).value.listener
  {
    if steps != [] {
      var init, last := steps[..|steps| - 1], steps[|steps| - 1];
      assert steps == init + [last];
      if s.listener || InstallListener in init {
        ListenerStays(s, init);
      }
      StepKeepsListener(Exec(s, init).value, last);
    }
  }

  lemma {:induction false} ExecKeepsMatchInv(s: State, steps: seq<Step>)
    requires MatchInv(s) && Exec(s, steps).Some? && ListenerFirst(s.listener, steps)
    ensures MatchInv(Exec(s, steps).value)
  {
    if steps != [] {
      var n := |steps| - 1;
      var init := steps[..n];
      forall i | 0 <= i < n && init[i].SendMatch?
        ensures s.listener || InstallListener in init[..i]
      {
        assert steps[i].SendMatch? && init[..i] == steps[..i];
      }
      ExecKeepsMatchInv(s, init);
      if steps[n].SendMatch? {
        ListenerStays(s, init);
      }
      StepKeepsMatchInv(Exec(s, init).value, steps[n]);
    }
  }

  ghost predicate Quiet(s: State, guid: Guid) {
    && s.channel == []
    && forall id <- s.discoveries :: s.discoveries[id].guid == guid ==> s.discoveries[id].progress.Finished?
  }

  /** With the listener in place before the first event is sent, under every interleaving: once a reader's
      registration and a writer's discoveries are through and the channel is drained, a reader that is
      still registered accepts every writer recorded on exactly its topic. */
  lemma NoLostMatch(own: GuidPrefix, listener: bool, steps: seq<Step>, s: State, e: EntityId, guid: Guid)
    requires Exec(Init(own, listener), steps) == Some(s) && ListenerFirst(listener, steps) && Quiet(s, guid)
    requires e in s.readers && e in s.registrations && s.registrations[e] == Registered && e in s.topics
    requires guid in s.remoteWriters && s.remoteWriters[guid] == s.topics[e]
    ensures e in s.sources && guid in s.sources[e] && AcceptsSource(s.sources[e], own, guid)
  {
    ExecKeepsMatchInv(Init(own, listener), steps);
    assert PastScan(s, e) && Covered(s, e, guid);
  }

  // ---------------------------------------------------------------------------
  // Announcements stay recorded while their peer is alive
  // ---------------------------------------------------------------------------

  ghost predicate RecordInv(s: State) {
    && (forall id <- s.discoveries ::
          && (s.discoveries[id].guid, s.discoveries[id].topic) in s.announced
          && (s.discoveries[id].progress != Announced ==> s.discoveries[id].guid in s.remoteWriters))
    && forall g <- s.remoteWriters :: (g, s.remoteWriters[g]) in s.announced
  }

  lemma StepKeepsRecordInv(s: State, step: Step)
    requires RecordInv(s) && Enabled(s, step) && !step.Evict?
    ensures RecordInv(Apply(s, step))
  {
  }

  lemma {:induction false} ExecKeepsRecordInv(own: GuidPrefix, listener: bool, steps: seq<Step>)
    requires Exec(Init(own, listener), steps).Some? && forall st <- steps :: !st.Evict?
    ensures RecordInv(Exec(Init(own, listener), steps).value)
  {
    if steps != [] {
      var init, last := steps[..|steps| - 1], steps[|steps| - 1];
      assert last in steps && forall st <- init :: st in steps;
      ExecKeepsRecordInv(own, listener, init);
      StepKeepsRecordInv(Exec(Init(own, listener), init).value, last);
    }
  }

  /** So, as long as no peer is evicted, a writer that was announced, always on one topic, ends up
      accepted by every registered reader of that topic. */
  lemma AnnouncedWritersAreAccepted(
    own: GuidPrefix, listener: bool, steps: seq<Step>, s: State, e: EntityId, guid: Guid, topic: Topic)
    requires Exec(Init(own, listener), steps) == Some(s) && ListenerFirst(listener, steps) && Quiet(s, guid)
    requires forall st <- steps :: !st.Evict?
    requires exists id :: id in s.discoveries && s.discoveries[id].guid == guid
    requires forall t :: (guid, t) in s.announced ==> t == topic
    requires e in s.readers && e in s.registrations && s.registrations[e] == Registered
    requires e in s.topics && s.topics[e] == topic
    ensures e in s.sources && AcceptsSource(s.sources[e], own, guid)
  {
    ExecKeepsRecordInv(own, listener, steps);
    var id :| id in s.discoveries && s.discoveries[id].guid == guid;
    assert s.discoveries[id].progress.Finished?;
    assert (guid, s.remoteWriters[guid]) in s.announced;
    NoLostMatch(own, listener, steps, s, e, guid);
  }

  /** Installing the listener late does lose matches: here the run ends quiet, yet the reader never
      hears of the writer. */
  lemma LateListenerLosesAMatch(own: GuidPrefix, guid: Guid, e: EntityId, topic: Topic)
    requires topic != "" && guid.prefix != own
    ensures exists steps, s ::
      && Exec(Init(own, false), steps) == Some(s) && s.listener && Quiet(s, guid)
      && e in s.readers && e in s.registrations && s.registrations[e] == Registered
      && guid in s.remoteWriters && e in s.topics && s.remoteWriters[guid] == s.topics[e]
      && e in s.sources && !AcceptsSource(s.sources[e], own, guid)
  {
    var s4 := RegisteredAlone(own, e, topic);
    var s10 := Unheard(own, e, guid, topic, Finished).(listener := true);
    var register, discover := RegisterSteps(e, topic), DiscoverSteps(e, guid, topic);
    RegisterAlone(own, e, topic);
    DiscoverUnheard(own, e, guid, topic);
    ExecThen(Init(own, false), register, s4, discover);
    assert Exec(Init(own, false), register + discover) == Some(s10);
  }

  function RegisterSteps(e: EntityId, topic: Topic): seq<Step> {
    [CreateReader(e, topic)] + [ListReader(e)] + [ScanWriters(e)] + [AddSources(e)]
  }

  function DiscoverSteps(e: EntityId, guid: Guid, topic: Topic): seq<Step> {
    [Announce(0, guid, topic)] + [RecordWriter(0)] + [ScanReaders(0)] + [SendMatch(0, e)] + [Finish(0)] + [InstallListener]
  }

  function RegisteredAlone(own: GuidPrefix, e: EntityId, topic: Topic): State {
    Init(own, false).(readers := {e}, sources := map[e := {}], localReaders := map[e := topic],
                      registrations := map[e := Registered], topics := map[e := topic])
  }

  lemma RegisterAlone(own: GuidPrefix, e: EntityId, topic: Topic)
    ensures Exec(Init(own, false), RegisterSteps(e, topic)) == Some(RegisteredAlone(own, e, topic))
  {
    var s0 := Init(own, false);
    var s1 := Apply(s0, CreateReader(e, topic));
    ExecSnoc(s0, [], s0, CreateReader(e, topic));
    var s2 := Apply(s1, ListReader(e));
    ExecSnoc(s0, [CreateReader(e, topic)], s1, ListReader(e));
    assert s2.topics[e] == topic && s2.localReaders == map[e := topic];
    var s3 := Apply(s2, ScanWriters(e));
    ExecSnoc(s0, [CreateReader(e, topic)] + [ListReader(e)], s2, ScanWriters(e));
    assert s3.registrations[e] == Scanned({});
    ExecSnoc(s0, [CreateReader(e, topic)] + [ListReader(e)] + [ScanWriters(e)], s3, AddSources(e));
    var s4, r := Apply(s3, AddSources(e)), RegisteredAlone(own, e, topic);
    assert s3.sources[e] == {} && s4.sources[e] == {};
    assert s4.readers == r.readers && s4.sources == r.sources && s4.localReaders == r.localReaders;
    assert s4.registrations == r.registrations && s4.topics == r.topics;
  }

  function Unheard(own: GuidPrefix, e: EntityId, guid: Guid, topic: Topic, progress: Progress): State {
    RegisteredAlone(own, e, topic).(
    remoteWriters := if progress == Announced then map[] else map[guid := topic],
    discoveries := map[0 := Discovery(guid, topic, progress)],
    announced := {(guid, topic)})
  }

  lemma UnheardRecords(own: GuidPrefix, e: EntityId, guid: Guid, topic: Topic)
    requires topic != ""
    ensures Apply(RegisteredAlone(own, e, topic), Announce(0, guid, topic)) == Unheard(own, e, guid, topic, Announced)
    ensures Apply(Unheard(own, e, guid, topic, Announced), RecordWriter(0)) == Unheard(own, e, guid, topic, Recorded)
  {
    var s1, s2 := Unheard(own, e, guid, topic, Announced), Unheard(own, e, guid, topic, Recorded);
    assert Apply(RegisteredAlone(own, e, topic), Announce(0, guid, topic)).discoveries == s1.discoveries;
    assert Apply(RegisteredAlone(own, e, topic), Announce(0, guid, topic)).announced == s1.announced;
    assert Apply(s1, RecordWriter(0)).discoveries == s2.discoveries;
    assert Apply(s1, RecordWriter(0)).remoteWriters == s2.remoteWriters;
  }

  lemma UnheardScans(own: GuidPrefix, e: EntityId, guid: Guid, topic: Topic)
    ensures Apply(Unheard(own, e, guid, topic, Recorded), ScanReaders(0)) == Unheard(own, e, guid, topic, Matched({e}))
  {
    var s2, s3 := Unheard(own, e, guid, topic, Recorded), Unheard(own, e, guid, topic, Matched({e}));
    assert ReadersOn(s2.localReaders, topic) == {e};
    assert Apply(s2, ScanReaders(0)).discoveries == s3.discoveries;
  }

  lemma UnheardSends(own: GuidPrefix, e: EntityId, guid: Guid, topic: Topic)
    ensures Apply(Unheard(own, e, guid, topic, Matched({e})), SendMatch(0, e)) == Unheard(own, e, guid, topic, Matched({}))
  {
    var s3, s4 := Unheard(own, e, guid, topic, Matched({e})), Unheard(own, e, guid, topic, Matched({}));
    assert {e} - {e} == {};
    assert Apply(s3, SendMatch(0, e)).discoveries == s4.discoveries;
  }

  lemma UnheardFinishes(own: GuidPrefix, e: EntityId, guid: Guid, topic: Topic)
    ensures Apply(Unheard(own, e, guid, topic, Matched({})), Finish(0)) == Unheard(own, e, guid, topic, Finished)
  {
    var s4, s5 := Unheard(own, e, guid, topic, Matched({})), Unheard(own, e, guid, topic, Finished);
    assert Apply(s4, Finish(0)).discoveries == s5.discoveries;
  }

  lemma DiscoverRecorded(own: GuidPrefix, e: EntityId, guid: Guid, topic: Topic)
    requires topic != ""
    ensures Exec(RegisteredAlone(own, e, topic), [Announce(0, guid, topic)] + [RecordWriter(0)]) ==
            Some(Unheard(own, e, guid, topic, Recorded))
  {
    var s0 := RegisteredAlone(own, e, topic);
    UnheardRecords(own, e, guid, topic);
    ExecSnoc(s0, [], s0, Announce(0, guid, topic));
    assert [] + [Announce(0, guid, topic)] == [Announce(0, guid, topic)];
    ExecSnoc(s0, [Announce(0, guid, topic)], Unheard(own, e, guid, topic, Announced), RecordWriter(0));
  }

  lemma DiscoverUnheard(own: GuidPrefix, e: EntityId, guid: Guid, topic: Topic)
    requires topic != ""
    ensures Exec(RegisteredAlone(own, e, topic), DiscoverSteps(e, guid, topic)) ==
            Some(Unheard(own, e, guid, topic, Finished).(listener := true))
  {
    var s0 := RegisteredAlone(own, e, topic);
    UnheardScans(own, e, guid, topic);
    UnheardSends(own, e, guid, topic);
    UnheardFinishes(own, e, guid, topic);
    DiscoverRecorded(own, e, guid, topic);
    var p2 := [Announce(0, guid, topic)] + [RecordWriter(0)];
    ExecSnoc(s0, p2, Unheard(own, e, guid, topic, Recorded), ScanReaders(0));
    var p3 := p2 + [ScanReaders(0)];
    ExecSnoc(s0, p3, Unheard(own, e, guid, topic, Matched({e})), SendMatch(0, e));
    var p4 := p3 + [SendMatch(0, e)];
    ExecSnoc(s0, p4, Unheard(own, e, guid, topic, Matched({})), Finish(0));
    var p5 := p4 + [Finish(0)];
    ExecSnoc(s0, p5, Unheard(own, e, guid, topic, Finished), InstallListener);
    assert DiscoverSteps(e, guid, topic) == p5 + [InstallListener];
  }

  lemma {:induction false} ExecThen(s: State, a: seq<Step>, m: State, b: seq<Step>)
    requires Exec(s, a) == Some(m)
    ensures Exec(s, a + b) == Exec(m, b)
  {
    if b == [] {
      assert a + b == a;
    } else {
      var init := b[..|b| - 1];
      assert (a + b)[..|a + b| - 1] == a + init;
      ExecThen(s, a, m, init);
    }
  }

  lemma ExecSnoc(s: State, steps: seq<Step>, m: State, step: Step)
    requires Exec(s, steps) == Some(m) && Enabled(m, step)
    ensures Exec(s, steps + [step]) == Some(Apply(m, step))
  {
    assert (steps + [step])[..|steps|] == steps;
  }

  // ---------------------------------------------------------------------------
  // Topic isolation
  // ---------------------------------------------------------------------------

  /** Evicting a peer forgets its writers and no other; what readers already accept they go on accepting. */
  lemma EvictForgets(s: State, prefix: GuidPrefix, g: Guid)
    ensures var s' := Apply(s, Evict(prefix));
            && (g in s'.remoteWriters <==> g in s.remoteWriters && g.prefix != prefix)
            && (g in s'.remoteWriters ==> s'.remoteWriters[g] == s.remoteWriters[g])
            && s'.sources == s.sources && s'.readers == s.readers
  {
  }

  /** An unsubscribed reader is given nothing any more. */
  lemma UnsubscribedGetsNothing(s: State, e: EntityId, source: Guid)
    requires Enabled(s, Unsubscribe(e))
    ensures !Enabled(Apply(s, Unsubscribe(e)), Push(e, source))
  {
  }

  /** Remote samples are pushed exactly to registered readers that have their writer among their sources. */
  lemma PushEnabledIff(s: State, e: EntityId, source: Guid)
    requires Shape(s)
    ensures Enabled(s, Push(e, source)) <==> e in s.readers && source.prefix != s.own && source in s.sources[e]
    ensures Enabled(s, Push(e, source)) ==> Apply(s, Push(e, source)).pushed == s.pushed + {(e, source)}
  {
  }

  /** Writer `guid` was at some time announced on exactly the topic reader `e` was created with. */
  ghost predicate Related(s: State, e: EntityId, guid: Guid) {
    e in s.topics && (guid, s.topics[e]) in s.announced
  }

  ghost predicate SourcesRelated(s: State) {
    forall e, guid | e in s.sources && guid in s.sources[e] :: Related(s, e, guid)
  }

  ghost predicate ChannelRelated(s: State) {
    forall e, guid | (e, guid) in s.channel :: Related(s, e, guid)
  }

  ghost predicate PushedRelated(s: State) {
    forall e, guid | (e, guid) in s.pushed :: Related(s, e, guid)
  }

  ghost predicate ScannedRelated(s: State) {
    forall e, guid | e in s.registrations && s.registrations[e].Scanned? && guid in s.registrations[e].matched ::
      Related(s, e, guid)
  }

  ghost predicate RecordedAnnounced(s: State) {
    forall g <- s.remoteWriters :: (g, s.remoteWriters[g]) in s.announced
  }

  ghost predicate DiscoveryRelated(d: Discovery, s: State) {
    && (d.guid, d.topic) in s.announced
    && (d.progress.Matched? ==> forall e <- d.progress.left :: e in s.topics && s.topics[e] == d.topic)
  }

  ghost predicate DiscoveriesRelated(s: State) {
    forall id <- s.discoveries :: DiscoveryRelated(s.discoveries[id], s)
  }

  ghost predicate IsolationInv(s: State) {
    && Shape(s) && SourcesRelated(s) && ChannelRelated(s) && PushedRelated(s)
    && ScannedRelated(s) && RecordedAnnounced(s) && DiscoveriesRelated(s)
  }

  lemma StepKeepsRelated(s: State, step: Step)
    requires Shape(s) && Enabled(s, step)
    ensures forall e, guid :: Related(s, e, guid) ==> Related(Apply(s, step), e, guid)
  {
  }

  lemma StepKeepsSources(s: State, step: Step)
    requires IsolationInv(s) && Enabled(s, step)
    ensures SourcesRelated(Apply(s, step)) && PushedRelated(Apply(s, step))
  {
    StepKeepsRelated(s, step);
    if step.Listen? {
      assert Related(s, s.channel[0].0, s.channel[0].1);
    }
  }

  lemma StepKeepsChannel(s: State, step: Step)
    requires IsolationInv(s) && Enabled(s, step)
    ensures ChannelRelated(Apply(s, step))
  {
    StepKeepsRelated(s, step);
    if step.Listen? {
      assert forall x <- s.channel[1..] :: x in s.channel;
    } else if step.SendMatch? {
      assert DiscoveryRelated(s.discoveries[step.id], s);
    }
  }

  lemma StepKeepsTables(s: State, step: Step)
    requires IsolationInv(s) && Enabled(s, step)
    ensures ScannedRelated(Apply(s, step)) && RecordedAnnounced(Apply(s, step))
  {
    StepKeepsRelated(s, step);
    if step.RecordWriter? {
      assert DiscoveryRelated(s.discoveries[step.id], s);
    }
  }

  lemma DiscoveryStaysRelated(s: State, step: Step, d: Discovery)
    requires Shape(s) && Enabled(s, step) && DiscoveryRelated(d, s)
    ensures DiscoveryRelated(d, Apply(s, step))
  {
  }

  lemma StepKeepsDiscoveries(s: State, step: Step)
    requires IsolationInv(s) && Enabled(s, step)
    ensures DiscoveriesRelated(Apply(s, step))
  {
    var s' := Apply(s, step);
    forall id <- s'.discoveries
      ensures DiscoveryRelated(s'.discoveries[id], s')
    {
      if id in s.discoveries {
        assert DiscoveryRelated(s.discoveries[id], s);
        DiscoveryStaysRelated(s, step, s.discoveries[id]);
      }
    }
  }

  lemma StepKeepsIsolation(s: State, step: Step)
    requires IsolationInv(s) && Enabled(s, step)
    ensures IsolationInv(Apply(s, step))
  {
    StepKeepsShape(s, step);
    StepKeepsSources(s, step);
    StepKeepsChannel(s, step);
    StepKeepsTables(s, step);
    StepKeepsDiscoveries(s, step);
  }

  lemma {:induction false} ExecKeepsIsolation(s: State, steps: seq<Step>)
    requires IsolationInv(s) && Exec(s, steps).Some?
    ensures IsolationInv(Exec(s, steps).value)
  {
    if steps != [] {
      var init := steps[..|steps| - 1];
      ExecKeepsIsolation(s, init);
      StepKeepsIsolation(Exec(s, init).value, steps[|steps| - 1]);
    }
  }

  /** DATA carries no topic and remote dispatch applies no topic filter, yet over every run a remote
      sample reaches a reader only if its writer was once announced on exactly that reader's topic. */
  lemma RemoteTopicIsolation(own: GuidPrefix, listener: bool, steps: seq<Step>, s: State, e: EntityId, source: Guid)
    requires Exec(Init(own, listener), steps) == Some(s) && (e, source) in s.pushed
    ensures e in s.topics && (source, s.topics[e]) in s.announced
  {
    ExecKeepsIsolation(Init(own, listener), steps);
    assert Related(s, e, source);
  }
}
