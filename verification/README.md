# Verified model of rust-DDS

A Dafny 4.11 model of the parts of rust-DDS where a mistake is hardest to see: the RTPS
reliable-delivery protocol, fragmentation, endpoint matching, the wire codecs, and the bounded queues
and in-process broker. `dafny verify dfyconfig.toml` checks all of it.

State that the program updates in place is a class whose methods are proved against functions on
values; what the program promises is then proved of those functions, over whole runs where it is a
promise about runs.

| module | models |
|---|---|
| `SendHistories`, `RecvTrackers` | the 256-slot ring of a reliable writer; the watermark and out-of-order set of a reliable reader |
| `Protocol`, `Safety`, `Recovery`, `Endpoints`, `AckWatermark` | one writer, any readers, a network that loses, repeats, delays and reorders; the handlers; the compare-and-exchange loop on `acked` |
| `Fragments`, `Reassembly`, `CopyPanics`, `OddFragments`, `SharedKeys` | DATA_FRAG splitting and reassembly; when the assembler panics, what it makes of odd fragments, and when it mixes samples |
| `Matching`, `Announcements` | SEDP discovery as a concurrent protocol; its announcements |
| `Messages`, `Cdr`, `Xcdr`, `Bytes`, `Ids` | framing, submessages, parameter lists, XCDR1 fields |
| `DataPath`, `Interleaving`, `Dispatch` | from `write` on one participant to the readers of another |
| `Queues`, `Broker`, `LateJoiners` | the subscriber queue, the relay backlog, the broker with its TransientLocal cache |

## Where the code falls short of its own words

Each of these is a lemma below.

- `acked` is documented as the highest number "known to have been received". It is so only from the
  acknowledging reader's anchor on (`Safety.AcknowledgementIsSafe`). Whatever happens after a reader's
  first contact, with only that reader acknowledging, it has received everything `acked` covers exactly
  when it had already been handed every sample below the number it started with
  (`Safety.AckedIsReceivedIff`), which for a reader that was handed nothing before means: started with
  number 1 (`Safety.AckedIsReceivedIffFromOne`). Both other kinds of contact happen: a
  late reader's HEARTBEAT after an eviction (`Safety.LateReaderHappens`, and then
  `Safety.AckedMayCoverUnreceivedSamples`), and DATA 2 where DATA 1 was lost, although the writer still
  holds it (`Safety.LostFirstSampleHappens`).
- GAPs are sent but not consumed (`DataPath.GapIsIgnored`): a reader that lacks an evicted sample of which
  no copy is on the way never gets past it (`Recovery.StrandedForever`; `Recovery.StrandedHappens` reaches
  such a state). A reader can catch up exactly when every evicted sample it still lacks is unsent or in
  flight (`Recovery.CatchUpIff`). The modelled network carries no addresses, so a copy on its way to
  another participant counts as in flight. Caught up means from the anchor on.
- The ACKNACK handler reads the window before it looks the numbers up. A number evicted in between is
  neither retransmitted nor declared lost; every other one is answered in exactly one way
  (`Safety.HandlerAnswersEachOnce`; `Safety.NoAnswerHappens` reaches the exception).
- `record` promises to report a number as new once. It reports it a second time exactly when the number
  lies more than 8192 above the watermark (`RecvTrackers.NewTwiceIff`).
- Two out-of-order stores hide samples: a number below the first one ever stored is not retrievable, and a
  store that comes 256 numbers late or more may overwrite one that still is
  (`SendHistories.OutOfOrderFirstStoreLosesASample`, `SendHistories.LateStoreLosesASample`). The exact
  conditions, for any order of stores, are `SendHistories.RetrievableIff`,
  `SendHistories.StoreIsRetrievableIff` and `SendHistories.StoreKeepsIff`.
- The reassembly key leaves out the sender's prefix and the high half of the number. Two samples cut alike
  that share it can come out as a third, which nobody wrote, exactly when they differ in at least two
  chunks (`SharedKeys.ThirdSampleIff`, with an input in `Reassembly.SharedKeyMixesSamples`).
- The fragment module says the assembler never panics. It does, exactly when the copy loop reaches a
  fragment whose octets do not fit the announced size or the buffer (`CopyPanics.ReceivePanicsIff`); one
  DATA_FRAG on an empty assembler is enough (`CopyPanics.OversizedFragmentPanics`). Fragments that fit
  their samples and agree about the sizes never cause it (`CopyPanics.ConsistentTrafficNeverPanics`).
- A fragment is meant to count as received only once it is well-formed. One that carries fewer octets than
  its size counts all the same, and the octets missing come out as zeros
  (`OddFragments.ShortFragmentIsZeroFilled`): the sample is right exactly when none is missing.
- A stride that the 16-bit cast turns into 0 keeps the splitting loop where it is
  (`Fragments.SplitEndsIff`).
- The base of a GAP list does not carry into the high half (`Messages.GapBaseIff`).
- A failed XCDR read leaves the cursor aligned, possibly past the end, where `remaining` underflows:
  exactly when the padding of the field alone overruns the buffer (`Xcdr.FailedReadOverrunsIff`, lifted to
  lists in `Xcdr.FailedListOverrunsIff`; `Xcdr.FailedReadsOverrun` has inputs).
- `write_char` keeps one octet (`Xcdr.FieldsRoundTripIff`): besides ASCII, only U+FFFD survives.
- Without the listener in place before the first match event, a match can be lost
  (`Matching.LateListenerLosesAMatch`).
- The relay's backlog drops a message only after `depth` newer ones, until its loop ends: then whatever is
  in the backlog is lost, however recent (`Queues.RelayEndLosesTheBacklog`). No message is lost early
  exactly when the backlog is empty at that moment (`Queues.RelayEndIff`).
- A `DropOldest` queue of capacity 0 holds one sample (`Queues.BoundHoldsIff`); the public options
  never produce that capacity.

## Model

| member | source | states |
|---|---|---|
| SendHistories.SendHistory.Store | src/rtps/reliable.rs:123-142 | storing appends to the log and keeps the ring's slots and window the ones the log determines |
| SendHistories.SendHistory.Get | src/rtps/reliable.rs:150-161 | `get` is the lookup the log determines, for any number |
| SendHistories.SendHistory.FirstLast | src/rtps/reliable.rs:167-173 | nothing before the first store, then the window |
| SendHistories.SlotEntry | src/rtps/reliable.rs:123-142 | a slot holds the last store whose number falls on it |
| SendHistories.HighestIsGreatest | src/rtps/reliable.rs:123-142 | the top of the window is the greatest number stored |
| SendHistories.LookupNeverMixes | src/rtps/reliable.rs:150-161 | under any store order, a message returned for a number is the latest stored under that number |
| SendHistories.ContiguousLookup | src/rtps/reliable.rs:123-173 | under contiguous stores the ring is the map of the last 256 numbers, both ways: every number advertised is retrievable, no other is |
| SendHistories.RetrievableIff | src/rtps/reliable.rs:123-161 | under any store order a number is retrievable iff it is among the last 256, not below the first stored, and was the last stored on its slot |
| SendHistories.StoreIsRetrievableIff | src/rtps/reliable.rs:123-161 | a store makes its own number retrievable iff that number is not below the window |
| SendHistories.StoreKeepsIff | src/rtps/reliable.rs:123-142 | a store loses no other retrievable number iff its number is at most 255 below the highest, or its slot holds nothing retrievable |
| SendHistories.OutOfOrderFirstStoreLosesASample | src/rtps/reliable.rs:129-133 | one way to lose a sample: after storing 2 then 1, number 1 cannot be retrieved |
| SendHistories.LateStoreLosesASample | src/rtps/reliable.rs:123-142 | the other way: after 10, 300 and 44, number 300 is advertised and cannot be retrieved |
| RecvTrackers.RecvTracker.Init | src/rtps/reliable.rs:234-240 | first contact anchors the watermark, later calls change nothing |
| RecvTrackers.RecvTracker.Record | src/rtps/reliable.rs:247-275 | the new watermark and out-of-order set, and whether the number counts as new |
| RecvTrackers.RecvTracker.Missing | src/rtps/reliable.rs:285-311 | base, bitmap and need of an ACKNACK |
| RecvTrackers.DrainMeaning | src/rtps/reliable.rs:258-263 | the watermark moves to the first number not remembered and forgets exactly those it passed |
| RecvTrackers.RecordKeepsValid | src/rtps/reliable.rs:247-275 | `ahead` stays within 8192 above `expected`; `expected` never decreases |
| RecvTrackers.MissingExact | src/rtps/reliable.rs:285-311 | bit N is set iff base+N is at most min(last, base+31) and not received; an ack is needed iff initialised and last is at least `expected`, and then bit 0 is set |
| RecvTrackers.RunRefines | src/rtps/reliable.rs:234-275 | after any calls the tracker is the set of numbers accepted since the anchor: `expected` its first gap, `ahead` what lies beyond, at most 8192 entries |
| RecvTrackers.RunGrows | src/rtps/reliable.rs:234-275 | over further calls the anchor stays, the set and the watermark only grow |
| RecvTrackers.RecordIsNew | src/rtps/reliable.rs:247-275 | `record` is true iff the number is at or above the anchor and not in the set |
| RecvTrackers.NewAtMostOnce | src/rtps/reliable.rs:243-275 | a number recorded inside the reorder window is never new again |
| RecvTrackers.NewTwiceIff | src/rtps/reliable.rs:267-275 | for any tracker, a number not seen before is reported new a second time iff it lies more than 8192 above the watermark |
| RecvTrackers.AnsweredRequestAdvances | src/rtps/reliable.rs:247-311 | once everything asked for has arrived, in any order, the watermark has passed min(last, base+31) |
| Protocol.StepKeepsInv | src/rtps/participant.rs:855-1064 | every step of every handler keeps the protocol invariant |
| Protocol.ExecKeepsInv | src/rtps/participant.rs:855-1064 | so does every run |
| Protocol.OnDataInv | src/rtps/participant.rs:869-870 | recording an arrived sample keeps every number from the anchor backed by the written bytes |
| Protocol.LookupWritten | src/rtps/participant.rs:1312-1362 | the ring returns what the writer wrote, exactly for the retained numbers |
| Protocol.AcknowledgeMeaning | src/rtps/participant.rs:1213-1230 | an ACKNACK confirms everything below its base and nothing else; `acked` does not fall |
| Protocol.AckedOverRuns | src/rtps/participant.rs:1213-1230 | over every run `acked` never falls, covers what every ACKNACK taken confirmed, and is its old value or what one of them confirmed |
| Protocol.DispatchMeaning | src/rtps/participant.rs:1086-1133 | a recorded sample is handed over, one whose recording was skipped too, and nothing else of the reader changes |
| Protocol.SendAndReportMeaning | src/rtps/participant.rs:870-930 | a report sends an ACKNACK iff something up to its number is missing, from the watermark, and is made once |
| Safety.WatermarksAreSafe | src/rtps/participant.rs:855-930 | `expected` is at most highest written + 1 and an ACKNACK in flight claims at most its sender's `expected` |
| Safety.AcknowledgementIsSafe | src/rtps/participant.rs:1213-1230 | a non-zero `acked` means some reader received every sample from its anchor through `acked`, and was handed each once its receive loop is through |
| Safety.AckedFromTheStart | src/rtps/participant.rs:1213-1230 | with every contacted reader anchored at 1, some reader received everything `acked` covers |
| Safety.AckedIsReceivedIff | src/rtps/participant.rs:855-930 | over every continuation in which only it acknowledges, a reader has received everything `acked` covers iff it had been handed every sample below the number of its first contact, by HEARTBEAT or DATA |
| Safety.AckedIsReceivedIffFromOne | src/rtps/participant.rs:855-930 | if it had been handed nothing before: iff the first contact was with number 1 |
| Safety.AckedMayCoverUnreceivedSamples | src/rtps/participant.rs:894-930 | one way it fails: with a late reader `acked` becomes lowest-1 while no reader has received anything |
| Safety.LateReaderHappens | src/rtps/participant.rs:1037-1064 | states with such a late reader are reached |
| Safety.LostFirstSampleHappens | src/rtps/participant.rs:855-887 | the other way: first contact by DATA 2 is reached while the writer still holds number 1 |
| Safety.Agreement | src/rtps/participant.rs:963-999 | all readers are handed, under one number, the bytes written under it |
| Safety.CopiesCarryTheWrittenBytes | src/rtps/participant.rs:963-999 | every copy in flight, first send or retransmission, carries those bytes |
| Safety.RequestsLieInTheHistory | src/rtps/participant.rs:963-999 | no reader asks for a number above the history |
| Safety.HandlerAnswersEachOnce | src/rtps/participant.rs:983-1029 | over one handler run, with anything interleaved: a requested number is retransmitted or in the GAP, never both, and neither iff it was evicted between the two reads |
| Safety.NoAnswerHappens | src/rtps/participant.rs:983-999 | a run in which 256 writes between the two reads leave a request without any answer |
| Safety.RequestsAnsweredOneWay | src/rtps/participant.rs:963-1030 | with nothing interleaved: retransmitted iff retained, covered by the GAP iff not |
| Safety.GapsSpareRetainedSamples | src/rtps/participant.rs:1001-1030 | a GAP in flight covers no retained sample |
| Recovery.TrackerRuns | src/rtps/participant.rs:855-930 | over a run, a reader's tracker sees exactly the calls its handlers make |
| Recovery.HandledArrives | src/rtps/participant.rs:985-999 | a handled request from inside the window, with nothing lost, is answered in full |
| Recovery.RoundAdvances | src/rtps/participant.rs:894-999 | a round of HEARTBEAT, ACKNACK and retransmission in which nothing is lost moves `expected` past min(last, expected+31), whatever else interleaves |
| Recovery.RoundsAdvance | src/rtps/participant.rs:894-999 | n rounds move it by 32n or to the end |
| Recovery.EightRoundsCatchUp | src/rtps/participant.rs:894-999 | eight rounds catch up a reader that is not below the window: it has received every sample from its anchor to the last, with the bytes written |
| Recovery.RoundExists | src/rtps/participant.rs:894-1064 | from every state with a lagging reader a loss-free round can be run |
| Recovery.CatchUpExists | src/rtps/participant.rs:894-1064 | so a run without writes catches up a reader that is not below the window |
| Recovery.StrandedForever | src/rtps/participant.rs:826 | a reader that lacks an evicted sample with no copy on the way never gets past it, over every run |
| Recovery.StrandedHappens | src/rtps/participant.rs:826-1030 | such a state is reached |
| Recovery.CatchUpIff | src/rtps/participant.rs:826-1030 | a reader can catch up without writes iff every evicted sample it lacks is unsent or in flight, to whomever |
| Recovery.CatchUpFromTheRingIff | src/rtps/participant.rs:826-1030 | with no copy of the next sample on the way: iff it is not below the window |
| AckWatermark.EndsAtTheMaximum | src/rtps/participant.rs:1213-1230 | under every interleaving of the retry loops, with loads that may be out of date, `acked` ends as the maximum of its old value and all confirmed numbers |
| AckWatermark.OneHandlerAgrees | src/rtps/participant.rs:1213-1230 | a handler alone leaves what the protocol's step leaves, however its exchanges fail |
| Endpoints.WriterState.Write | src/rtps/participant.rs:1300-1362 | a write takes the next number and stores its message under it |
| Endpoints.WriterState.Heartbeat | src/rtps/participant.rs:1037-1064 | a HEARTBEAT advertises the window, none before the first write |
| Endpoints.WriterState.AdvanceAcked | src/rtps/participant.rs:1213-1230 | `acked` never falls, reaches base-1, and is its old value or base-1; base 0 confirms nothing |
| Endpoints.WriterState.HandleAckNack | src/rtps/participant.rs:963-1030 | DATA is sent for exactly the requested numbers that are retained, once each and in rising order, with the stored bytes; then a GAP, exactly if the base is below the window, up to min(lowest-1, base+31) |
| Endpoints.AnswersMeaning | src/rtps/participant.rs:983-1029 | the same of the specification, for any log |
| Endpoints.ReaderState.NotifyData | src/rtps/participant.rs:855-887 | a DATA records its number and may answer with an ACKNACK |
| Endpoints.ReaderState.HandleHeartbeat | src/rtps/participant.rs:894-930 | a HEARTBEAT anchors on first contact and may answer with an ACKNACK |
| Endpoints.HandlerIsARun | src/rtps/participant.rs:963-1030 | what the ACKNACK handler does is a run of protocol steps that handles every bit of the request |
| Endpoints.HandlerMakesRounds | src/rtps/participant.rs:963-1030 | that run, followed by the arrival of what it sent, is a request handled with nothing lost, as the catch-up rounds need |
| Endpoints.HandlerServesAll | src/rtps/participant.rs:855-930 | a DATA or HEARTBEAT handed to any readers in turn serves each exactly once, sends every reply, changes nothing else, and is a run of the protocol |
| Fragments.SplitIntoFragmentsN | src/rtps/fragment.rs:401-434 | the fragments are the ceil(n/stride) consecutive chunks, numbered from 1; none for an empty payload |
| Fragments.CountMeaning | src/rtps/fragment.rs:300 | fragment k exists iff its offset lies inside the payload |
| Fragments.SplitEndsIff | src/rtps/fragment.rs:401-434 | splitting ends iff there is nothing to split or the stride is not a non-zero multiple of 65536; stride 0 means 1200, one up to 65535 itself |
| Fragments.CopyIn | src/rtps/fragment.rs:330-364 | the copy loop: stops at the end, skips duplicates and short payloads, panics where the octets do not fit |
| Reassembly.CopyRun | src/rtps/fragment.rs:330-364 | a submessage that carries several fragments of a sample puts exactly those, each whole and in its place |
| OddFragments.OnePanicsIff | src/rtps/fragment.rs:332-361 | one fragment panics iff it is not in yet and reaches beyond the announced size or the buffer |
| OddFragments.ShortFragmentIsZeroFilled | src/rtps/fragment.rs:350-363 | a fragment with octets missing counts as received, and zeros come out for them |
| OddFragments.NumberZeroCopiesNothing | src/rtps/fragment.rs:329-335 | fragment number 0 wraps around and nothing is copied |
| OddFragments.RefusedChangesNothing | src/rtps/fragment.rs:294-299 | empty announcements and those above 16 MiB are refused and change nothing |
| Fragments.FragmentAssembler.Receive | src/rtps/fragment.rs:293-371 | buffers after any fragment, the sample if complete, and whether it panicked |
| CopyPanics.CopyPanicsIff | src/rtps/fragment.rs:330-364 | copying panics iff it reaches a fragment, not yet in, that does not fit the announced size or the buffer |
| CopyPanics.ReceivePanicsIff | src/rtps/fragment.rs:293-371 | the same for a fragment arriving at any state of the assembler |
| CopyPanics.OversizedFragmentPanics | src/rtps/fragment.rs:359-361 | one DATA_FRAG with 100 octets for a sample of 10 panics an empty assembler |
| CopyPanics.CopiedBeforeThePanic | src/rtps/fragment.rs:330-364 | what was copied ahead of the misfit stays copied, and only that |
| CopyPanics.PanicLeavesTheBuffer | src/rtps/fragment.rs:307-323 | and it stays under its key for whoever calls next |
| CopyPanics.ConsistentTrafficNeverPanics | src/rtps/fragment.rs:293-371 | fragments that fit their samples and agree about each key's size never panic, in any order |
| CopyPanics.SplitSamplesNeverPanic | src/rtps/fragment.rs:293-434 | in particular fragments of key-distinct samples, however they interleave |
| Reassembly.CopyOwn | src/rtps/fragment.rs:331-364 | a fragment of a sample puts its octets, and only its, in place once |
| Reassembly.CompleteMeansPayload | src/rtps/fragment.rs:366-371 | a buffer is complete iff every fragment was seen, and then is the payload |
| Reassembly.OtherKeysUntouched | src/rtps/fragment.rs:311-323 | a fragment leaves other keys' live buffers as they are |
| Reassembly.StaleReassembliesGo | src/rtps/fragment.rs:313-323 | no buffer older than the stale age survives a fragment; a stale one under its own key starts over |
| Reassembly.ReassemblyInvertsSplitting | src/rtps/fragment.rs:293-434 | for any arrivals in any order, carrying one fragment or several, repeated, overlapping and interleaved with any other traffic, none stale: nothing until the last distinct fragment, then exactly the payload |
| Reassembly.SharedKeyMixesSamples | src/rtps/fragment.rs:226-230 | two samples with one key produce a sample nobody wrote |
| SharedKeys.ThirdSampleIff | src/rtps/fragment.rs:226-371 | two equally cut samples of one key can yield a third iff they differ in at least two chunks |
| Matching.SedpService.ScanWriters | src/rtps/sedp.rs:388-395 | the remote writers on exactly the topic |
| Matching.SedpService.ScanReaders | src/rtps/sedp.rs:619-645 | the local readers on exactly the topic, each counted as a match |
| Matching.SedpService.EvictPeer | src/rtps/sedp.rs:669-673 | every writer of the peer is forgotten, every other one kept with its topic |
| Matching.StepKeepsMatchInv | src/rtps/sedp.rs:376-647 | every step keeps each recorded match made or on its way |
| Matching.NoLostMatch | src/rtps/sedp.rs:614-647 | under every interleaving with the listener in place before the first match event: once both sides are through and the channel is drained, a registered reader accepts every writer recorded on its topic |
| Matching.AnnouncedWritersAreAccepted | src/rtps/participant.rs:559-600 | the same for every writer announced, always on one topic, while no peer is evicted |
| Matching.LateListenerLosesAMatch | src/rtps/participant.rs:655-667 | installing the listener late can lose a match |
| Matching.RemoteTopicIsolation | src/rtps/participant.rs:780-789 | a remote sample reaches a reader only if its writer was once announced on that reader's exact topic |
| Matching.PushEnabledIff | src/rtps/participant.rs:1086-1149 | a remote sample is pushed exactly to registered readers that have its writer among their sources |
| Matching.EvictForgets | src/rtps/sedp.rs:669-688 | eviction forgets the peer's writers and no other; accepted sources stay |
| Matching.UnsubscribedGetsNothing | src/rtps/participant.rs:639-645 | an unsubscribed reader is given nothing any more |
| Matching.AcceptsSourceIff | src/rtps/participant.rs:1140-1149 | a source is accepted iff it is of the reader's own participant or matched |
| Ids.SequenceNumberRoundTrip | src/rtps/message.rs:154-166 | packing into high and low halves loses nothing, both ways |
| Messages.HeaderRoundTrip | src/rtps/message.rs:194-225 | the message header is read back and the rest left in place |
| Messages.HeaderAcceptedIff | src/rtps/message.rs:208-225 | a header is accepted iff 20 octets begin with "RTPS", and nothing of it is lost |
| Messages.SubmessageIter.Next | src/rtps/message.rs:638-677 | one step of iteration, with its error state |
| Messages.ParseLossless | src/rtps/message.rs:633-677 | on any octets the items with their headers and the remainder are the input; it ends cleanly iff fewer than four octets remain |
| Messages.FirstMeaning | src/rtps/message.rs:638-677 | what the first four octets announce, with the zero-length rule for PAD, INFO_TS and the others |
| Messages.FrameReadBackIff | src/rtps/message.rs:280-301 | exactly when a framed submessage is read back, with the zero-length rule and its exceptions |
| Messages.ParseFrames | src/rtps/message.rs:633-677 | a concatenation of well-formed submessages yields exactly that list |
| Messages.DataRoundTrip | src/rtps/message.rs:334-388 | DATA is read back; an empty payload as none |
| Messages.DataPayloadIff | src/rtps/message.rs:367-388 | a payload is read iff the data flag is set and octets follow the fixed part |
| Messages.DataLayout | src/rtps/message.rs:334-358 | where each field of DATA lies |
| Messages.DataFragRoundTrip | src/rtps/fragment.rs:155-213 | DATA_FRAG is read back |
| Messages.DataFragLayout | src/rtps/fragment.rs:155-180 | where each field of DATA_FRAG lies |
| Messages.HeartbeatRoundTrip | src/rtps/message.rs:416-461 | HEARTBEAT is read back |
| Messages.HeartbeatLayout | src/rtps/message.rs:416-434 | where each field of HEARTBEAT lies |
| Messages.AckNackRoundTrip | src/rtps/message.rs:486-540 | ACKNACK is read back with every bit of its bitmap |
| Messages.AckNackLayout | src/rtps/message.rs:486-507 | where each field of ACKNACK lies, and which bit of the word stands for which number |
| Messages.GapBaseIff | src/rtps/message.rs:571-590 | the gap list's base is one past the gap iff the low half is below 2^32-1 |
| Messages.GapLayout | src/rtps/message.rs:571-590 | where each field of GAP lies |
| Cdr.PayloadRoundTrip | src/rtps/cdr.rs:305-333 | an encapsulated payload is unwrapped unchanged |
| Cdr.HeaderOctets | src/rtps/cdr.rs:305-333 | the octets of the encapsulation headers and the sentinel, and which headers are accepted |
| Cdr.PlCdrEncoder.AddParam | src/rtps/cdr.rs:118-128 | one parameter is appended to the list |
| Cdr.PlCdrEncoder.Finish | src/rtps/cdr.rs:170-174 | the encoding of the list, with its sentinel |
| Cdr.PlCdrDecoder.Next | src/rtps/cdr.rs:233-260 | the next parameter and the cursor, skipping padding, stopping at sentinel or overrun |
| Cdr.ParamReadBackIff | src/rtps/cdr.rs:118-260 | exactly when one encoded parameter is read back |
| Cdr.ListRoundTrip | src/rtps/cdr.rs:118-260 | any encodable list, whatever follows it, is decoded to the same ids in order, values zero-padded to four octets |
| Cdr.PadIsSkipped | src/rtps/cdr.rs:233-260 | a padding parameter is stepped over by its four octets |
| Cdr.StringRoundTrip | src/rtps/cdr.rs:154-286 | a string value is decoded whatever padding follows |
| Cdr.CountedString | src/rtps/cdr.rs:267-286 | any counted octets are the string, less one NUL at their end |
| Announcements.BuildEndpointData | src/rtps/sedp.rs:227-239 | the announcement is the list of the four parameters |
| Announcements.HandleEndpointAnnounce | src/rtps/sedp.rs:552-605 | what is stored of a payload: nothing without a topic |
| Announcements.AnnouncementRoundTrip | src/rtps/sedp.rs:510-605 | any endpoint with a topic whose framed announcement fits is stored by the peer with its identity, topic and port |
| Announcements.StoredLocator | src/rtps/sedp.rs:249-270 | the port survives; the address is the sender's iff the families agree |
| Announcements.FillInMeaning | src/rtps/sedp.rs:249-270 | an announced address is never replaced, a missing one only by a sender of its family |
| Announcements.TopicAloneIsEnough | src/rtps/sedp.rs:552-605 | what is stored when only a topic is announced |
| Announcements.NoTopicNothingStored | src/rtps/sedp.rs:595-597 | nothing is stored without one |
| Announcements.StoredFromAll | src/rtps/sedp.rs:510-545 | every submessage of a datagram is stored from on its own, in order |
| Announcements.OwnAnnouncementsAreIgnored | src/rtps/sedp.rs:510-520 | nothing is stored of the participant's own announcements |
| Xcdr.XcdrEncoder.WriteInt | src/rtps/xcdr.rs:141-196 | appends padding and the two's complement octets |
| Xcdr.XcdrEncoder.WriteString | src/rtps/xcdr.rs:198-208 | appends length, text and NUL |
| Xcdr.XcdrEncoder.WriteBytesSeq | src/rtps/xcdr.rs:210-218 | appends count and octets |
| Xcdr.XcdrEncoder.WriteChar | src/rtps/xcdr.rs:137-139 | appends the low octet |
| Xcdr.XcdrDecoder.Open | src/rtps/xcdr.rs:248-268 | short or unknown headers are refused; both byte orders are accepted |
| Xcdr.XcdrDecoder.ReadInt | src/rtps/xcdr.rs:320-401 | the integer at the next aligned position, or where the buffer ends |
| Xcdr.XcdrDecoder.ReadString | src/rtps/xcdr.rs:417-432 | the text without one trailing NUL |
| Xcdr.XcdrDecoder.ReadBytesSeq | src/rtps/xcdr.rs:434-443 | the counted octets |
| Xcdr.XcdrDecoder.ReadChar | src/rtps/xcdr.rs:310-318 | one octet, replaced when not ASCII |
| Xcdr.XcdrDecoder.ReadBool | src/rtps/xcdr.rs:287-294 | any non-zero octet is true |
| Xcdr.HeadersAccepted | src/rtps/xcdr.rs:248-268 | little-endian is written, either byte order accepted |
| Xcdr.OneOctetFields | src/rtps/xcdr.rs:287-318 | a bool is 1 or 0, any octet but 0 is true, a character above ASCII is U+FFFD |
| Xcdr.StringLayout | src/rtps/xcdr.rs:198-208 | a string is padded to 4, counted with its NUL, and ends in it |
| Xcdr.UnterminatedString | src/rtps/xcdr.rs:417-432 | a counted string without NUL is read whole |
| Xcdr.BitsRoundTrip | src/rtps/xcdr.rs:141-184 | two's complement of every width loses nothing, both ways |
| Xcdr.FieldReadBack | src/rtps/xcdr.rs:110-445 | one field anywhere in a buffer is read back and the cursor stops right behind it |
| Xcdr.FieldsReadBack | src/rtps/xcdr.rs:110-445 | any list of fields, whatever follows: the cursor ends exactly at the encoding's length |
| Xcdr.FieldsRoundTripIff | src/rtps/xcdr.rs:133-139 | the values come back unchanged iff every character is ASCII or U+FFFD |
| Xcdr.DecodeStaysInside | src/rtps/xcdr.rs:270-445 | on any octets the cursor only advances and a successful read ends inside the buffer |
| Xcdr.FailedReadOverrunsIff | src/rtps/xcdr.rs:270-445 | a read of any kind leaves the cursor past the end iff the field's padding overruns, and then has failed |
| Xcdr.FailedListOverrunsIff | src/rtps/xcdr.rs:270-445 | the same for a list, at its first failing field |
| Xcdr.FailedReadsOverrun | src/rtps/xcdr.rs:270-445 | it happens for integers, strings and octet sequences |
| DataPath.WriteMessages | src/rtps/participant.rs:1326-1350 | one DATA up to 1200 octets, otherwise one DATA_FRAG for each chunk |
| DataPath.HandleSubmessage | src/rtps/participant.rs:764-806 | what any submessage does to the buffers, which events it raises, and whether it panics |
| DataPath.HandleDataPacket | src/rtps/participant.rs:753-809 | what any datagram does, up to a panic; own and malformed ones nothing |
| DataPath.BodyIsItems | src/rtps/participant.rs:760-808 | on any octets, handling a message is handling in order exactly the submessages iteration yields |
| DataPath.DatagramIsItems | src/rtps/participant.rs:753-809 | every well-formed submessage of a datagram is handled, in order |
| DataPath.OwnDatagramsAreIgnored | src/rtps/participant.rs:754-759 | own datagrams, and octets that are no RTPS message, do nothing |
| DataPath.MessageCount | src/rtps/participant.rs:1326-1350 | one datagram up to 1196 octets, then one for every 1200 begun |
| DataPath.HeartbeatArrives | src/rtps/participant.rs:810-819 | a HEARTBEAT datagram reaches its handler as sent |
| DataPath.AckNackArrives | src/rtps/participant.rs:820-825 | an ACKNACK datagram reaches its handler as sent |
| DataPath.GapIsIgnored | src/rtps/participant.rs:826 | a GAP datagram changes nothing |
| DataPath.DeliverUpTo | src/rtps/participant.rs:791-806 | no event while a fragment is missing, one when the last arrives |
| DataPath.WriteDelivers | src/rtps/participant.rs:753-1350 | for every payload up to 16 MiB less 4, its messages in any order raise exactly one event with the original bytes and number |
| Interleaving.EachWriteDeliveredOnce | src/rtps/participant.rs:753-1350 | writes with different reassembly keys, large and small, their datagrams each once in any order and interleaving: exactly one event for each write, and no other |
| Dispatch.LevelsMeaning | src/rtps/wildcard.rs:37-41 | the levels are slash-free and, joined by slashes, the topic |
| Dispatch.MatchMeaning | src/rtps/wildcard.rs:37-62 | a pattern matches iff all levels agree, or agree up to a `#` |
| Dispatch.Dispatcher.DispatchToReaders | src/rtps/participant.rs:1086-1133 | a reader is given the sample iff its topic is the one named, if one is, exactly or as a pattern, and the source is its own participant's or matched; the others stay; deliveries and drops count those with and without room |
| Dispatch.WriteReachesReaders | src/rtps/participant.rs:753-1149 | one write reaches each accepting remote reader exactly once, and no other |
| Dispatch.LocalWriteReachesReaders | src/rtps/participant.rs:1397-1399 | a local write is given to every reader whose topic is the writer's, exactly or as a pattern, and to no other |
| Queues.SubInner.Enqueue | src/participant.rs:90-121 | a sample is refused iff the policy is not `DropOldest` and the queue is at capacity; otherwise it is appended, after the oldest has made room if need be |
| Queues.SubInner.Push | src/participant.rs:86-128 | the same once the flags are open; refused and unchanged when closed or unsubscribed |
| Queues.AcceptedIff | src/participant.rs:86-128 | over every run an offer is missing from the accepted ones iff the flags were closed, or the queue then held `capacity` samples and does not evict |
| Queues.SubInner.Pop | src/participant.rs:130-132 | removes and returns the head |
| Queues.SubInner.Unsubscribe | src/participant.rs:147-152 | sets both flags, keeps what is queued |
| Queues.BoundHoldsIff | src/participant.rs:86-128 | the queue stays within its capacity in every run iff the capacity is positive or nothing evicts |
| Queues.LossyFifo | src/participant.rs:86-132 | consumed then queued samples are a subsequence of the pushes; the queue is a suffix of the accepted ones |
| Queues.AcceptedIsKept | src/participant.rs:86-128 | without eviction, consumed then queued samples are exactly the accepted ones |
| Queues.DropsOnlyWhenBehind | src/participant.rs:98-103 | `DropOldest` accepts everything while open and loses a sample only after `capacity` newer ones |
| Queues.ClosedOnlyDrains | src/participant.rs:86-152 | after closing nothing enters, but for pushes already past their check, and what was queued comes out in order |
| Queues.RelayTask.OnSample | src/adapt.rs:161-174 | the backlog evicts its head when full, then appends |
| Queues.RelayTask.OnPermit | src/adapt.rs:150-160 | the backlog's head is sent |
| Queues.RelayTask.OnEnd | src/adapt.rs:157-177 | when the source is closed and drained, or the caller gone, the loop ends and the backlog is discarded |
| Queues.RelayEndIff | src/adapt.rs:146-182 | at the end of the loop, after any run: every message was sent or followed by `depth` newer ones iff the backlog is empty |
| Queues.RelayEndLosesTheBacklog | src/adapt.rs:176 | it happens: with depth 4, two messages are lost after at most one newer one |
| Queues.PipelineIsLossyFifo | src/adapt.rs:146-182 | queue and backlog together deliver a subsequence of the pushes; while the loop runs the backlog dropped a message only after `depth` newer ones, and if it ends now that stays true of all iff the backlog is empty |
| Broker.TopicState.PushToCache | src/mock/mod.rs:83-90 | the cache drops its oldest when full |
| Broker.TopicState.Publish | src/mock/mod.rs:108-139 | cache, listed subscribers, every queue and the counters after a publish |
| Broker.TopicState.Subscribe | src/mock/mod.rs:161-179 | a new queue with the cache replayed into it, listed last |
| LateJoiners.PublishMeaning | src/mock/mod.rs:124-138 | a publish pushes once to every subscriber not closed, and to no other |
| LateJoiners.PublishDrops | src/mock/mod.rs:127-138 | the drops are exactly the not-closed subscribers without room |
| LateJoiners.StepKeepsInv | src/mock/mod.rs:83-179 | every call keeps the cache and every subscriber's stream as expected |
| LateJoiners.LateJoinerStream | src/mock/mod.rs:83-179 | a TransientLocal subscriber is offered the last min(depth, n) cached samples, then every later publish until it closes |
| LateJoiners.DepthStays | src/mock/mod.rs:108-113 | the depth is that of the call that created the topic, at least 1 |
| LateJoiners.DeliveriesAndDropsAddUp | src/mock/mod.rs:108-139 | deliveries plus drops equal the sum over publishes of the subscribers not closed |

## Left out

- Fragments.SplitIntoFragmentsN: strides on which the loop never ends are excluded (`Fragments.SplitEndsIff` says which), and payloads whose 32-bit fragment number would overflow.
- RecvTrackers.RecvTracker.Init: numbers from 2^64-33 on, where the unchecked sums of the code may wrap.
- RecvTrackers.RecvTracker.Record: numbers from 2^64-33 on, as for `Init`; also in `Endpoints`.
- RecvTrackers.RecvTracker.Missing: the 32-bit bitmap is 32 booleans; `Messages.AckNackRoundTrip` relates it to the word on the wire.
- Endpoints.WriterState.Write: writes of one writer are serialised and unfragmented; the code takes the number and stores the message in two steps. `SendHistories.RetrievableIff` and `SendHistories.StoreKeepsIff` say what other orders of stores do.
- Endpoints.WriterState.AdvanceAcked: a single handler; the retries of concurrent ones are module `AckWatermark`.
- Endpoints.WriterState.HandleAckNack: nothing comes between its reads; `Safety.HandlerAnswersEachOnce` covers what may.
- DataPath.HandleDataPacket: a panic ends the receive loop that called it, and other loops go on with the buffers as they are; restarting a loop is not modelled.
- Announcements.HandleEndpointAnnounce: strings are octets; replacing invalid UTF-8 is not modelled.
- Xcdr.XcdrDecoder.ReadString: strings are octets; replacing invalid UTF-8 is not modelled.
- Protocol progress is for unfragmented samples: the code keeps only the first fragment of a large one for retransmission.
- The protocol has one writer; trackers of different writers are independent entries of a map. Looking readers and writers up by entity id, and the loop over all reliable readers, become steps for each reader.
- Readers leaving, and a queue refusing a sample that was already recorded: dispatch in the protocol means handing over to the queue, whose own behaviour is in `Queues`.
- HEARTBEAT and ACKNACK counters: carried by the codecs, not by the protocol, which ignores them as the code does.
- TransientLocal replay inside one participant: the replay modelled is the broker's, in `Broker`.
- Closing a subscriber between the broker's two looks at it: a publish is one step there.
- The map from topic names to topic states in the broker, and its byte counters: one entry at a time, easy.
- The other tables an evicted peer is removed from: the same filter on maps that matching does not read.
- `matched_reader_locators` and every choice of destination address: the network is a set of messages.
- SPDP, leases, discovery tokens, disk persistence, sockets, timers, deadline watchers, task lifecycles and `recv` wakeups: I/O, clocks and foreign calls; time is a parameter where staleness needs it.
- The pcap container: its fixed-layout records would repeat the framing round trips.
- The relay's `DropNewest` and `Block` policies: they send into a bounded channel of the async runtime.
- Floats are their bit patterns; message conversion in the relay adapter is one to one and left out.
