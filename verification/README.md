# securelink, modelled and proved in Dafny

This project models the stateful protocol cores of securelink, a C and C++ secure messaging stack,
and proves what they promise over every input and every run. Each core is an independent group of
modules; imperative source code is imperative here too, proved against functions on values, and the
theorems are about those functions.

- **Stream multiplexer** (`Streams`, `MuxSteps`, `StreamMultiplexer`, `MuxRuns`, `MuxProtocol`, `MuxSchedules`): many streams
  share one session with two layers of credit windows, half-close phases and a priority scheduler.
  `MuxRuns` is about one multiplexer under every sequence of calls and frames; `MuxProtocol` joins a
  client and a server by two FIFO channels; `MuxSchedules` says what the order of pops and deliveries
  decides, and that every run can be drained.
- **Replay protection** (`Words`, `ReplayGuard`, `BeaconServer`): a multi-word bitmap shifted in place
  against the plain set of accepted numbers, and the beacon server's peek, authenticate, commit.
- **Publish and subscribe** (`Topic`, `TopicTrie`, `PubSubBroker`, `BrokerRuns`): the topic index, a linked
  tree, against segment-wise matching, and against the scanning matcher used for retained messages;
  interleaved lock regions of publishes and subscribes.
- **RPC client** (`RpcClient`): interleaved lock regions, each call resolved exactly once.
- **Storage** (`Varint`, `Crc32c`, `Chains`, `Files`, `KvLog`, `KvLaws`, `KvStore`, `EventLog`): append-only files,
  replay, and round trips at computed offsets.
- **Byte streams** (`Reassembly`, `Framing`, `Record`, `Circular`): results that do not depend on how bytes
  are split, records over an ideal AEAD, and circular buffers as FIFO queues.
- **File transfer** (`ResumeMap`, `FileTransfer`, `ShortReads`, `FileEndpoints`): chunks in any order with duplicates,
  short reads and failed writes.
- **Arithmetic cores** (`TokenBucket`, `Utf8`) and the **connection guard** (`DosGuard`, `DosRuns`).

The clock, the network, the disk's partial writes, the sender's short reads, the socket's send results
and the access-control verdict are inputs. 64-bit and 32-bit truncation is written out where the code
depends on it. Hash functions are arbitrary functions, so the hash-table results hold for any of them.
`dafny verify dfyconfig.toml` checks the project. Lemmas that Dafny could prove by
induction on its own switch that off, so that their proofs are the ones written down.

Where the code differs from its comments or from what its callers may expect, the model follows the code:

- the scanning topic matcher needs at least one segment for a final hash (`Topic.ScanDiffersExactly`, `Topic.ParentIsMissed`);
- a subscribe that falls between the two lock regions of a retaining publish misses the message both
  ways (`BrokerRuns.LostIffSubscribeInside`);
- key-value replay records the value's offset, while lookup expects the record's (`KvLaws.ReopenedValueIff`);
- opening a key-value file or an event log with a length of 2^63 or more may never end
  (`KvLog.OpensIffReplayEnds`, `EventLog.OpensIffWalkEnds`);
- a frame refused by the session window stays charged to its stream (`MuxRuns.RecvWindowsBalance`, `MuxRuns.SomeChargeIsLost`);
- session send credit is never granted back (`MuxRuns.SessionCreditIsSpentOnce`);
- a side announces its FIN only if its last pop comes before the partner's FIN reaches it
  (`MuxSchedules.FinSentIffEmptiedFirst`, `MuxProtocol.SecondFinIsNeverSent`);
- file completion is reported whatever the digest's outcome, and never for an empty file
  (`FileTransfer.CompletionIsGenuineIff`, `FileEndpoints.ForgedChunk`, `FileTransfer.EmptyNeverCompletes`);
- a short read of the last chunk is accepted as the whole chunk, and the mismatch it leads to is final
  (`ShortReads.ShortReadsMismatchIff`, `ShortReads.OneShortRead`);
- event iteration visits records whatever their checksum (`EventLog.EventsOfAnyLog`, `EventLog.WrongChecksumIsVisited`);
- after its oldest half-open connection is promoted an address may be swept early (`DosRuns.SweepIsEarlyIff`);
- a token bucket first used while the clock reads zero loses the time up to its next use (`TokenBucket.WaitIsEnough`).

## Model

| member | source | states |
|---|---|---|
| `Streams.FinClosesOneDirection` | src/stream_state.cpp:32-56 | a sent FIN ends sending and leaves receiving as it was, a received FIN the other way round, and both together close the stream |
| `Multiplexer.StreamMultiplexer.constructor` | src/stream_multiplexer.cpp:8-13 | the new session has both windows at the initial size, no streams and the first id of its parity |
| `Multiplexer.StreamMultiplexer.FindOrCreate` | src/stream_multiplexer.cpp:20-34 | a known stream is left alone; an unknown one becomes a fresh open record with the initial windows; nothing else changes |
| `Multiplexer.StreamMultiplexer.OpenStream` | src/stream_multiplexer.cpp:36-43 | refines the open step of the state machine the run theorems are about |
| `Multiplexer.StreamMultiplexer.SendData` | src/stream_multiplexer.cpp:45-71 | refines the send step: both credits are charged or none is, and a FIN half-closes the stream |
| `Multiplexer.StreamMultiplexer.OnFrame` | src/stream_multiplexer.cpp:73-122 | refines the receive step, including the stream charge that stays when the session refuses |
| `Multiplexer.StreamMultiplexer.PopOutbound` | src/stream_multiplexer.cpp:124-154 | the band-by-band scan finds a frame exactly if some stream is schedulable, and serves a stream of the best band |
| `Multiplexer.StreamMultiplexer.ReadInbound` | src/stream_multiplexer.cpp:156-171 | refines the read step: the whole buffer is handed over and both receive windows are replenished |
| `Multiplexer.StreamMultiplexer.ResetStream` | src/stream_multiplexer.cpp:173-180 | refines the reset step |
| `MuxRuns.RecvWindowsBalance` | src/stream_multiplexer.cpp:73-171 | in every run of one multiplexer with an initial window within the cap: session window + all buffered bytes = initial window, and per stream window + buffered + bytes refused after being charged = initial window |
| `MuxRuns.SomeChargeIsLost` | src/stream_multiplexer.cpp:86-98 | some run, of frames within the wire's payload limit, has a byte charged to its stream and then refused by the session, if and only if the window is positive |
| `MuxRuns.LargeWindowLosesBalance` | src/sl_flow_control.c:27-32 | above the 1 GiB cap a concrete run loses the balance: the replenishment is refused |
| `MuxRuns.RecvBalanceIffWithinCap` | src/sl_flow_control.c:20-32 | the balance holds in all runs if and only if the initial window is within the cap |
| `MuxRuns.SessionCreditIsSpentOnce` | src/stream_multiplexer.cpp:45-71 | in every run session send credit + bytes ever accepted = initial window: credit is never granted back |
| `MuxRuns.FinishedIsStable` | src/stream_state.cpp:32-71 | a stream that can no longer send and has an empty queue stays so, whatever is called |
| `MuxRuns.IdsAndFinsOfRuns` | src/sl_stream_id.c:3-35 | in every run local ids strictly increase in one parity and never meet the peer's; each stream emits at most one FIN and no frame after it |
| `MuxProtocol.RunsKeepInv` | src/stream_multiplexer.cpp:20-171 | two peers joined by FIFO channels: the per-stream and per-session invariants hold after every sequence of events, with arbitrary WINDOW, PING and PONG frames injected |
| `MuxProtocol.HeadIsAccepted` | src/stream_multiplexer.cpp:73-122 | under the invariant the frame at the head of a channel is accepted by the receiver |
| `MuxProtocol.EveryDeliveryIsAccepted` | src/stream_multiplexer.cpp:73-122 | in every run, for every initial window and every grant, each delivered frame is accepted |
| `MuxProtocol.BytesAreConserved` | src/stream_multiplexer.cpp:45-171 | in every run and for each stream and direction: bytes read ++ buffered ++ in flight ++ queued = bytes accepted for sending, in order |
| `MuxProtocol.DrainedMeansDelivered` | src/stream_multiplexer.cpp:124-171 | in each direction of each stream: with its queue, its frames on the channel and its buffer empty, the reader has exactly what the sender submitted |
| `MuxProtocol.CreditIsConserved` | src/sl_flow_control.c:13-39 | window within the cap and grants never exceeding bytes read: for every stream in every run, send credit + bytes queued, in flight and buffered + bytes read but not granted back + grants under way = initial window |
| `MuxProtocol.SettledStreamPhases` | src/stream_state.cpp:32-71 | once nothing of a stream is under way and both sides have closed it, at least one side is Closed, and a side is Closed exactly if the other emitted its FIN |
| `MuxProtocol.SecondFinIsNeverSent` | src/stream_multiplexer.cpp:136-150 | a concrete run in which a side whose last pop comes after the partner's FIN never emits its own, so the partner stays half closed: FIN is flagged only in the half-closed-local phase |
| `MuxSchedules.FinSentIffEmptiedFirst` | src/stream_multiplexer.cpp:124-154 | in every run and for each side: it emits its FIN if and only if the pop that empties its queue after closing comes before the partner's FIN is delivered to it |
| `MuxSchedules.ClosedIffEmptiedFirst` | src/stream_state.cpp:32-71 | once a stream is settled both sides have made that pop; a side is Closed if and only if the other made it before being reached by a FIN, so both are Closed if and only if both did, and at least one did |
| `MuxSchedules.SomeIsServed` | src/stream_multiplexer.cpp:124-154 | as long as any stream has something queued the scheduler has a stream to serve |
| `MuxSchedules.EveryRunCanDrain` | src/stream_multiplexer.cpp:73-171 | from every state of every run, for each stream and direction, some finite continuation without another send leaves the reader with everything the sender had submitted |
| `Words.WordsMoveUp` | inc/replay_guard.hpp:86-109 | moving every word up by n moves every bit up by 64 n |
| `Words.BitsMoveUp` | inc/replay_guard.hpp:86-109 | funnelling each word with the one below moves every bit up by the remaining distance |
| `Words.MovesAddUp` | inc/replay_guard.hpp:86-109 | the two in-place shifts together move every bit by the whole distance |
| `Replay.NoDoubleAcceptance` | inc/replay_guard.hpp:36-63 | over any call sequence there are exactly as many acceptances as distinct accepted numbers |
| `Replay.FreshByAcceptance` | inc/replay_guard.hpp:36-63 | for every history: a number is acceptable if and only if it is non-zero, was never accepted, and is less than a window below every accepted number |
| `Replay.InWindowCallsWereAccepted` | inc/replay_guard.hpp:36-63 | a number inside the window that was ever passed in was accepted when it was first passed in |
| `Replay.ReplayGuard.constructor` | inc/replay_guard.hpp:74-78 | an empty history |
| `Replay.ReplayGuard.IndexOf` | inc/replay_guard.hpp:111-116 | the masked distance from the newest number is a valid bit position, and the distance itself inside the window |
| `Replay.ReplayGuard.SetBit` | inc/replay_guard.hpp:123-126 | sets one bit of the array and no other |
| `Replay.ReplayGuard.AdvanceTo` | inc/replay_guard.hpp:86-109 | the descending in-place word and bit loops move every remembered bit up by the distance, or clear all of them when it reaches the window |
| `Replay.ReplayGuard.BitRemembers` | inc/replay_guard.hpp:111-121 | inside the window the stored bit says whether the number was ever passed in |
| `Replay.ReplayGuard.WouldAccept` | inc/replay_guard.hpp:66-72 | predicts the verdict of the same number's check |
| `Replay.ReplayGuard.CheckAndUpdate` | inc/replay_guard.hpp:36-63 | accepts exactly the fresh numbers of the history so far, extends the history by the call, and counts rejections by cause |
| `Replay.ReplayGuard.CounterIsSize` | inc/replay_guard.hpp:36-63 | the accepted counter is the size of the accepted set |
| `Replay.ReplayGuard.Reset` | inc/replay_guard.hpp:74-78 | back to the empty history |
| `Beacon.ClientState.Receive` | src/beacon_server.cpp:31-72 | peek, authenticate, commit for one client: accepted exactly if well formed, fresh and authentic; a rejected beacon leaves the window alone |
| `Beacon.ClientState.Commit` | src/beacon_server.cpp:61-64 | after a successful peek the commit always accepts, so the late replay branch is never taken |
| `Beacon.BeaconServer.Lookup` | src/beacon_server.cpp:31-36 | the client entry is made on first use, with an empty history |
| `Beacon.BeaconServer.ReceiveFor` | src/beacon_server.cpp:31-72 | one client's beacon leaves every other client's history alone |
| `Beacon.BeaconServer.OnBeacon` | src/beacon_server.cpp:13-72 | verdict and new history for any wire bytes and any client, with all other histories unchanged |
| `Beacon.SealedReads` | src/sl_beacon_codec.c:13-88 | a beacon sealed for a header that fits its fields is read back with that header and as authentic |
| `Beacon.AuthenticWasSealed` | src/sl_beacon_codec.c:51-88 | whatever bytes are read as authentic were sealed for the header and sequence number they carry |
| `Topic.CommonStructureOk` | src/sl_topic.c:10-18 | accepts exactly the names of 1 to 256 characters and at most 16 segments that neither start nor end with a slash |
| `Topic.IsValidPublish` | src/sl_topic.c:20-34 | accepts exactly the valid publish names, stated on their segments |
| `Topic.CheckFilterSegment` | src/sl_topic.c:42-57 | a segment is a lone plus, a lone final hash, or plain characters |
| `Topic.IsValidFilter` | src/sl_topic.c:36-60 | accepts exactly the valid filters, stated on their segments |
| `Topic.TopicMatches` | src/sl_topic.c:62-92 | the two-cursor scan computes the segment-wise scanning relation on every pair of strings |
| `Topic.ScanDiffersExactly` | src/sl_topic.c:62-92 | for valid names: scan and segment-wise matching differ if and only if the filter is P/# and P matches the whole topic, and then only the scan says no |
| `Topic.ParentIsMissed` | src/sl_topic.c:62-92 | the valid filter a/# and topic a are such a pair |
| `Trie.EntryMatchesFilter` | src/topic_trie.cpp:91-112 | an index entry matches a topic if and only if its filter does segment by segment, with hash for zero or more segments |
| `Trie.TopicTrie.constructor` | src/topic_trie.cpp:19-44 | the empty index |
| `Trie.TopicTrie.Subscribe` | src/topic_trie.cpp:19-44 | adds exactly this filter/subscriber entry to the live set; true if and only if it is new |
| `Trie.TopicTrie.Unsubscribe` | src/topic_trie.cpp:46-70 | removes exactly this entry; true if and only if it was there |
| `Trie.TopicTrie.UnsubscribeAll` | src/topic_trie.cpp:74-89 | the work-list sweep visits every node once: all entries of the subscriber go, no others, and the result is their number |
| `Trie.TopicTrie.FoundStep` | src/topic_trie.cpp:91-112 | what matches below a node is what it holds itself plus what matches below the two edges that fit |
| `Trie.TopicTrie.MatchInto` | src/topic_trie.cpp:91-112 | the recursion adds exactly the subscribers with a matching live entry below the node |
| `Trie.TopicTrie.Match` | src/topic_trie.cpp:114-120 | returns exactly the subscribers having some live entry that matches the topic |
| `Trie.Split` | src/topic_trie.cpp:7-17 | the split loop gives the segments between slashes |
| `PubSub.EntriesAreDistinct` | src/pubsub_broker.cpp:53-91 | two valid filters never share an index entry, so live entries and filter/subscriber pairs correspond |
| `PubSub.RetainedDiffersFromLive` | src/pubsub_broker.cpp:28-90 | for valid names live delivery and retained replay differ exactly when the filter is P/# and P matches the whole topic |
| `PubSub.PubSubBroker.CountIsPairs` | src/topic_trie.cpp:122-125 | the index's count is the number of live filter/subscriber pairs |
| `PubSub.PubSubBroker.RoutedByIndex` | src/pubsub_broker.cpp:28-49 | the index finds exactly the subscribers with a live filter that matches segment-wise |
| `PubSub.PubSubBroker.Publish` | src/pubsub_broker.cpp:10-51 | with its two lock regions adjacent: refuses invalid or denied topics; else one delivery to each subscriber with a matching live filter, and the retained value follows the retain flag |
| `PubSub.PubSubBroker.MatchIndex` | src/pubsub_broker.cpp:28 | first region of a publish: exactly the subscribers with a live filter that matches |
| `PubSub.PubSubBroker.StoreAndDeliver` | src/pubsub_broker.cpp:30-50 | second region: stores the retained value and delivers once to each subscriber matched before |
| `PubSub.PubSubBroker.Subscribe` | src/pubsub_broker.cpp:53-91 | with its two lock regions adjacent: refuses invalid or denied filters; else records the pair and replays exactly the retained topics the scan matches |
| `PubSub.PubSubBroker.Record` | src/pubsub_broker.cpp:70 | first region of a subscribe: the pair is in force |
| `PubSub.ReplayTo` | src/pubsub_broker.cpp:72-90 | second region: one replay for each retained topic the scan matches and none besides |
| `BrokerRuns.HandedIff` | src/pubsub_broker.cpp:28-90 | one retaining publish and one subscribe in any run whatever, other publishes on the topic and other filters of the subscriber included: the publish reaches the subscriber if and only if the insertion precedes its match and the filter matches, or another filter in force then does; the subscribe replays exactly what the last store on the topic before its scan retained, if its filter matches |
| `BrokerRuns.RetainedIsLast` | src/pubsub_broker.cpp:30-34 | at every point of every run the message retained on a topic is that of the last retaining store on it |
| `BrokerRuns.LostIffSubscribeInside` | src/pubsub_broker.cpp:28-90 | a filter that matches both ways: the subscriber gets neither the message nor a later one retained on the topic if and only if the whole subscribe falls between the two regions of the publish and no other filter helps; it gets the message both live and replayed if and only if it is reached live, the publish is stored before the scan and nothing later is |
| `BrokerRuns.MessageCanBeLost` | src/pubsub_broker.cpp:28-90 | a concrete such run, after which message and subscription are both on record |
| `PubSub.PubSubBroker.Unsubscribe` | src/pubsub_broker.cpp:93-100 | drops the pairs that share the filter's entry, which for a valid filter is just this pair |
| `PubSub.PubSubBroker.DropSubscriber` | src/pubsub_broker.cpp:102-109 | drops exactly the subscriber's pairs and returns their number |
| `Rpc.RpcClient.NextId` | src/sl_rpc_id.c:10-21 | ids count up from one, never zero, and are refused once exhausted |
| `Rpc.RpcClient.Register` | src/rpc_client.cpp:38-66 | first lock region of a call: a new pending entry with its deadline |
| `Rpc.RpcClient.FailSend` | src/rpc_client.cpp:68-86 | second lock region, after a failed send |
| `Rpc.RpcClient.OnResponse` | src/rpc_client.cpp:90-118 | takes the entry with the response's id out of the table, if there is one |
| `Rpc.RpcClient.SweepTimeouts` | src/rpc_client.cpp:120-142 | the erasing loop takes out exactly the entries that had expired when it came to them, the clock being read for each |
| `Rpc.RpcClient.CancelAll` | src/rpc_client.cpp:144-157 | takes every pending entry out |
| `Rpc.FreshId` | src/sl_rpc_id.c:10-21 | a new call's id was never given out before, in any run |
| `Rpc.RunsKeepInv` | src/rpc_client.cpp:18-157 | under every interleaving of lock-region steps each started call is in exactly one of pending, held by one resolver, or resolved |
| `Rpc.CallsAreAccountedFor` | src/rpc_client.cpp:18-157 | in every run calls started = matched + timeouts + cancellations + send failures + pending |
| `Rpc.FulfilledOnce` | src/rpc_client.cpp:68-157 | a promise is fulfilled at most once, by its only holder, and keeps its value |
| `Rpc.AnswersMatchIds` | src/rpc_client.cpp:90-118 | a call answered in any run was answered by a response carrying its own id |
| `Rpc.DoDecidesOnce` | src/rpc_client.cpp:68-157 | an outcome is decided by one step and never revised |
| `Rpc.NoEarlyTimeout` | src/rpc_client.cpp:120-142 | a call times out only if it was made with a timeout, and only at a sweep that reaches it at or after its deadline |
| `Rpc.DeadlineOrigin` | src/rpc_client.cpp:38-66 | a pending call's deadline is the time it was made plus its timeout |
| `Rpc.CancelEndsEveryCall` | src/rpc_client.cpp:144-157 | from every state, cancelling and fulfilling what is held leaves every call ever started resolved and none pending |
| `Crc.DivideAppend` | src/sl_crc32.c:22-29 | dividing a then b from any state is dividing a ++ b |
| `Crc.FeedIsGeneratorDivision` | src/sl_crc32.c:6-16 | the reversed register performs, bit for bit, the division by 0x1EDC6F41 of section 12.1 of RFC 3720 |
| `Crc.TableByte` | src/sl_crc32.c:22-29 | one table lookup equals eight division steps, from every register state |
| `Crc.TableEntry` | src/sl_crc32.c:8-14 | the eight-step loop computes the table entry |
| `Crc.Crc32c.BuildTable` | src/sl_crc32.c:6-16 | fills all 256 entries |
| `Crc.Crc32c.Update` | src/sl_crc32.c:22-29 | the table-driven update equals the bit-at-a-time division for every input and initial state |
| `Crc.ChecksumInParts` | src/sl_crc32.c:18-39 | a message may be checksummed in pieces |
| `Varint.RoundTrip` | src/sl_varint.c:9-37 | every 64-bit value is read back from wherever it was written, whatever follows, in at most ten bytes |
| `Varint.DecodedFits` | src/sl_varint.c:22-37 | whatever the bytes, a decoded value fits in 64 bits and took at most ten bytes |
| `Varint.SizeU64` | src/sl_varint.c:3-7 | the size is the length of the encoding |
| `Varint.EncodeU64` | src/sl_varint.c:9-20 | writes exactly the encoding at its place and touches nothing else; fails exactly if it does not fit |
| `Varint.AppendU64` | src/sl_kvstore.c:67-74 | a machine word's encoding is added behind what the header buffer holds, and always fits |
| `Varint.DecodeU64` | src/sl_varint.c:22-37 | the shifting loop computes the decoding function |
| `Chains.Find` | src/sl_kvstore.c:36-43 | the chain walk finds the entry that lookup and replacement are about, or none |
| `Chains.Upsert` | src/sl_kvstore.c:45-60 | the key has the new value afterwards and every other key what it had |
| `Chains.StoreInTotal` | src/sl_dos_guard.c:39-52 | a table-wide sum moves by the difference at the stored key |
| `Logs.WalkLog` | src/sl_event_log.c:120-146 | a reader that recognises records wherever they lie walks any log of them from first to last, misses none and comes to an end |
| `Logs.EndsSoon` | src/sl_kvstore.c:105-144 | a walk of reads and seeks over a file comes to an end at all if and only if it does so within one read more than there are bytes |
| `Logs.ForwardEnds` | src/sl_event_log.c:120-146 | a walk that only moves forward ends |
| `KvLog.ReadRecord` | src/sl_kvstore.c:205-218 | reading at a record's start, by the two decoded lengths, lands exactly on the value |
| `KvLog.ScanLog` | src/sl_kvstore.c:105-144 | every log opens, and replaying it finds its records at their true offsets, up to the first key over 4096 bytes |
| `KvLog.OpensIffReplayEnds` | src/sl_kvstore.c:105-144 | with the signed seek written out: opening a file returns if and only if its replay ends within one turn more than there are bytes |
| `KvLog.ShortLengthsOpen` | src/sl_kvstore.c:105-144 | every file opens in which no place reads as a record with a value of 2^63 bytes or more |
| `KvLog.BackwardFileNeverOpens` | src/sl_kvstore.c:138 | any good record followed by one 12-byte header: opening that file never ends |
| `KvLaws.ReopenedAgrees` | src/sl_kvstore.c:98-146 | after opening any log the index knows exactly the live keys of the fold, with the offset and length of each last value's bytes |
| `KvLaws.SessionPresence` | src/sl_kvstore.c:163-236 | open any log, do any puts and deletes: presence and size equal the fold of all operations, and the file is their log |
| `KvLaws.SessionValues` | src/sl_kvstore.c:195-219 | every key put in the session and not deleted since: its length is reported and exactly its last value is stored in the caller's buffer, or it is reported too large and nothing is stored; so never more than the buffer holds |
| `KvLaws.ReopenKeepsPresence` | src/sl_kvstore.c:98-146 | with keys up to 4096 bytes, closing and reopening changes neither presence nor size |
| `KvLaws.ReopenedValueIff` | src/sl_kvstore.c:134-219 | a live key not put in the session after opening, in any state of that session: the caller gets its value if and only if the value's own first bytes, read as lengths, point at readable bytes that start with it (replay stores the value's offset, get expects the record's); more is stored than the buffer holds if and only if they point at more bytes than that |
| `KvLaws.DeliveredIntoAnyBuffer` | src/sl_kvstore.c:195-219 | what the caller gets: the stored bytes start with the value if and only if every buffer does so after the call |
| `KvLaws.ShortLengthIsNeverDelivered` | src/sl_kvstore.c:134-219 | from the value alone: if its own first bytes hold two complete lengths and the second is smaller than the value, it is never delivered after a reopen |
| `KvLaws.ReopenedZeroValue` | src/sl_kvstore.c:134-219 | for a value that starts with two zero bytes the call then succeeds, reports the full length and leaves the buffer as it was |
| `KvLaws.TwinIsDelivered` | src/sl_kvstore.c:134-219 | two keys with the value 07 03: after a reopen the first is delivered, by three stored bytes, even into a buffer of two |
| `KvStore.Store.constructor` | src/sl_kvstore.c:98-146 | opening any file whose replay ends, well formed or not, gives the index that the scan specifies |
| `KvStore.Store.Replay` | src/sl_kvstore.c:105-144 | the replay loop notes every record found, to the first that does not parse or whose value cannot be skipped |
| `KvStore.Store.ReadRecord` | src/sl_kvstore.c:111-142 | parses one record as specified, with every early exit and the signed skip of the value |
| `KvStore.Store.WriteRecord` | src/sl_kvstore.c:62-96 | appends exactly the record's bytes, encoded in the header buffer and checksummed in pieces by the table-driven update, and returns where they start |
| `KvStore.Store.Put` | src/sl_kvstore.c:163-182 | refines the put step the session theorems are about |
| `KvStore.Store.Delete` | src/sl_kvstore.c:184-193 | refines the delete step |
| `KvStore.Store.Get` | src/sl_kvstore.c:195-219 | return code, reported length and stored bytes as specified |
| `KvStore.Store.Has` | src/sl_kvstore.c:221-225 | true exactly for live keys |
| `KvStore.Store.Size` | src/sl_kvstore.c:227-236 | the nested count equals the number of live keys |
| `EventLog.EventsOfLog` | src/sl_event_log.c:40-149 | iterating a log gives back its events in order, and opening it sees all their numbers |
| `EventLog.EventsOfAnyLog` | src/sl_event_log.c:110-149 | whatever four bytes stand in the place of each checksum, iteration visits all events in order and unchanged, and opening sees all their numbers |
| `EventLog.WrongChecksumIsVisited` | src/sl_event_log.c:133-144 | for every event a record with a wrong checksum that is visited like any other |
| `EventLog.IterationEnds` | src/sl_event_log.c:120-146 | iterating any file comes to an end |
| `EventLog.OpensIffWalkEnds` | src/sl_event_log.c:48-63 | with the signed and possibly failing seek written out: opening a file returns if and only if its walk ends within one turn more than there are bytes |
| `EventLog.ShortPayloadsOpen` | src/sl_event_log.c:48-63 | every file opens in which no place reads as a header with a payload of 2^63 bytes or more |
| `EventLog.BackwardFileNeverOpens` | src/sl_event_log.c:61 | a file of thirteen bytes on which opening never ends |
| `EventLog.SessionsMakeLog` | src/sl_event_log.c:40-104 | after any open-append sessions the file is the log of all accepted entries |
| `EventLog.IterationIsComplete` | src/sl_event_log.c:40-149 | across any number of sessions iteration visits exactly the accepted entries, in order, same kind and payload, numbered 1, 2, 3, ... |
| `EventLog.Journal.constructor` | src/sl_event_log.c:40-66 | for every file whose walk ends, the hopping loop recovers the next number |
| `EventLog.Journal.Append` | src/sl_event_log.c:74-104 | refines the append step, through the header buffer and the table-driven checksum; refuses exactly payloads over 1 MiB |
| `EventLog.Iterate` | src/sl_event_log.c:110-149 | visits the file's events up to and including the first one the visitor stops at |
| `Dos.DosGuard.constructor` | src/sl_dos_guard.c:54-66 | no entries, both counters zero |
| `Dos.NewGuard` | src/sl_dos_guard.c:54-66 | creation fails exactly for a zero limit |
| `Dos.DosGuard.Admit` | src/sl_dos_guard.c:82-95 | admits exactly if both the global and the address total are below their caps; the address's new state, counters equal to the sums over all chains, and both caps |
| `Dos.DosGuard.Promote` | src/sl_dos_guard.c:97-105 | one half-open of the address becomes established; totals, sums and caps are kept |
| `Dos.DosGuard.Release` | src/sl_dos_guard.c:107-118 | one established, else one half-open, of the address goes; counters follow exactly |
| `Dos.DosGuard.Reap` | src/sl_dos_guard.c:126-136 | the counter drops by the entry's half-opens and the clamp branch is unreachable |
| `Dos.DosGuard.Sweep` | src/sl_dos_guard.c:120-140 | every stale address, and no other, loses its half-opens; the result is the exact drop of the counter |
| `DosRuns.SweepIsEarlyIff` | src/sl_dos_guard.c:82-140 | in every history of one address under a clock that does not go back: a sweep drops its half-opens if one is over the timeout; it drops them although none is if and only if the remembered time is over the timeout and the oldest of them is not, and then the connection that set that time is gone |
| `DosRuns.PromotionMakesSweepEarly` | src/sl_dos_guard.c:97-140 | for every timeout a concrete history: after the older connection is promoted the sweep drops the other one millisecond after it came |
| `Reassembly.RunKeeps` | inc/framing.hpp:55-101 | for self-delimiting units, every arrival pattern, every interleaving and every buffer size, refused arrivals included: units taken are the first ones, and buffered ++ unfed bytes are exactly the others |
| `Reassembly.DrainedMeansAll` | inc/framing.hpp:60-101 | with all bytes fed and nothing more to take, every unit has come out |
| `Framing.PeekEncoded` | inc/framing.hpp:61-118 | an encoded legal frame parses to itself whatever follows |
| `Framing.PeekPrefix` | inc/framing.hpp:61-84 | no proper prefix of a legal frame parses or errs |
| `Framing.ReadyMeansEncoded` | inc/framing.hpp:61-101 | whatever parses starts with the encoding of the frame it gives |
| `Framing.ErrorPersists` | inc/framing.hpp:56-79 | an error verdict is the same after any further feeding |
| `Framing.FramesComeOut` | inc/framing.hpp:56-118 | for every list of legal frames, every split and every interleaving of feed and next: what has been read parses to the first frames, what is left are the bytes of the others, and all have come out once nothing more can be read |
| `Framing.FrameParser.Feed` | inc/framing.hpp:56-58 | appends to the buffer |
| `Framing.FrameParser.Next` | inc/framing.hpp:61-101 | the verdict is the specified one; a frame taken and the buffer left are the old buffer |
| `Framing.FrameParser.Reset` | inc/framing.hpp:121 | empties the buffer |
| `Framing.EncodeFrame` | inc/framing.hpp:104-118 | the filled buffer holds the frame's bytes, the length kept to 32 bits |
| `Nonce.NoncesDiffer` | src/sl_nonce.c:5-25 | distinct 64-bit numbers give distinct nonces under one IV (section 5.3 of RFC 8446) |
| `Nonce.BuildNonce` | src/sl_nonce.c:5-25 | the xor loop computes the nonce |
| `Nonce.NextNonce` | src/sl_nonce.c:27-39 | refuses exactly the last number; else gives its nonce and counts on without wrapping |
| `Record.OpenSealed` | src/sl_record.c:26-90 | with an ideal AEAD a sealed record opens to its message under the same number |
| `Record.OpenedWasSealed` | src/sl_record.c:56-90 | whatever opens is the sealed record of the message it gives, under that number and that header, and opens under no other number |
| `Record.OpensOnlyInTurn` | src/sl_record.c:56-90 | a record sealed under one number opens under no other |
| `Record.OnlyInTurnOpens` | src/sl_record.c:56-90 | records lost, repeated or reordered in any way: a receiver that counts up opens exactly those that come in their turn, and not the first that does not |
| `Record.NeverStuck` | src/sl_record.c:17-24 | with a largest record buffered there is always a record to take or a malformed header |
| `Record.MessagesComeOut` | src/sl_recv_buf.c:22-47 | messages sealed under consecutive numbers and offered in any pieces to a buffer of any size, refused pushes included, open to exactly the same messages and types in order, all of them once drained; a buffer for a largest record is never full with nothing to take |
| `Record.SealRecord` | src/sl_record.c:26-54 | writes the record to the front of the buffer and nothing else; fails exactly if text or record is too large |
| `Record.OpenRecord` | src/sl_record.c:56-90 | computes the specified opening; after a failed authentication the text area is zero |
| `Record.RecvBuf.Push` | src/sl_recv_buf.c:22-28 | appends all the data or, if it does not fit, nothing |
| `Record.RecvBuf.Take` | src/sl_recv_buf.c:30-47 | moves exactly the first whole record out and keeps the rest, slid to the front |
| `Record.TakeIsCut` | src/sl_recv_buf.c:30-47 | with room for a largest record, take follows the cutter the stream theorem is about |
| `Record.NewRecvBuf` | src/sl_recv_buf.c:6-13 | creation fails exactly for zero capacity |
| `Record.IdealAeadExists` | src/sl_record.c:48-51 | the idealisation, nonce separation included, is satisfiable |
| `ResumeMap.HasMarked` | src/sl_resume_map.c:23-37 | marking a chunk sets its bit and no other |
| `ResumeMap.CountFull` | src/sl_resume_map.c:39-41 | the count equals the total exactly if every chunk is marked |
| `ResumeMap.MissingIsExact` | src/sl_resume_map.c:43-58 | the list holds exactly the unmarked chunks, each once, in increasing order |
| `ResumeMap.Map.constructor` | src/sl_resume_map.c:6-14 | nothing marked, count zero |
| `ResumeMap.AllocationCoversIff` | src/sl_resume_map.c:8 | the 32-bit rounding allocates a byte for every eight chunks if and only if the count is at least eight short of 2^32, and nothing otherwise |
| `ResumeMap.Map.Set` | src/sl_resume_map.c:23-32 | marks the chunk; the counter stays the number of set bits; a second time changes nothing |
| `ResumeMap.Map.Complete` | src/sl_resume_map.c:39-41 | true exactly if every chunk is marked |
| `ResumeMap.Map.ListMissing` | src/sl_resume_map.c:43-58 | the first unmarked chunks in order, as many as fit, and whether there are more; there are total - received of them |
| `ResumeMap.Map.Serialize` | src/sl_resume_map.c:60-67 | the map's bytes, if they fit |
| `ResumeMap.Deserialize` | src/sl_resume_map.c:69-82 | marks and recount agree with the bytes read; too few bytes are refused |
| `ResumeMap.RoundTrip` | src/sl_resume_map.c:60-82 | a map written out and read back has the same marks and count |
| `FileTransfer.SentIsAcceptable` | src/file_sender.cpp:34-114 | every chunk the sender reads is non-empty, in range and passes the receiver's checks |
| `FileTransfer.FullMeansEqual` | src/file_receiver.cpp:74-84 | once every chunk is written the destination is the source |
| `FileTransfer.DeliverSent` | src/file_receiver.cpp:48-114 | one arrival: a duplicate changes nothing, a failed write keeps the bookkeeping, a full write adds exactly this chunk, and completion is reported exactly when it was the last |
| `FileTransfer.TransferIsFaithful` | src/file_receiver.cpp:48-131 | chunks in any order, with any duplicates and failed writes: exactly one call reports completion, when all have landed, and then the destination is byte for byte the source; marks and counter agree throughout |
| `FileTransfer.EmptyNeverCompletes` | src/file_receiver.cpp:55-57 | an empty file has no acceptable chunk, so completion is never reported |
| `FileTransfer.CompleteIsFinal` | src/file_receiver.cpp:48-114 | once all chunks are marked no call, whatever the chunk, changes the destination or anything else |
| `FileTransfer.CompletionIsGenuineIff` | src/file_receiver.cpp:48-118 | any description, any calls with chunks from anyone, any failed writes and failed reading back: completion is reported if and only if some call returned completion or a mismatch, and then the destination has the announced digest if and only if no call returned a mismatch |
| `FileTransfer.FailedReadBackIsFinal` | src/file_receiver.cpp:97-108 | if the file cannot be read back when the last chunk is marked, no later call changes anything and completion is never reported |
| `ShortReads.ShortReadsMismatchIff` | src/file_sender.cpp:88-114 | the sender's chunks in any order with any repetitions, short reads, failed writes and failed reading back: once all have landed the destination is the source up to the furthest byte written in the last chunk's place and zero from there on, for ever; a mismatch is returned if and only if the file could be read back and this has another digest than the source |
| `ShortReads.CutIsWholeIff` | src/file_receiver.cpp:61-66 | that is the source if and only if the rest of it is zero |
| `ShortReads.OneShortRead` | src/file_sender.cpp:88-114 | a file of two bytes of which the sender reads one: the transfer ends in a mismatch |
| `FileEndpoints.ForgedChunk` | src/file_receiver.cpp:48-118 | one forged chunk with a good checksum: the call returns the mismatch, and completion is reported |
| `FileEndpoints.WriteTwice` | src/file_receiver.cpp:76-83 | two adjacent writes are one, so the partial-write loop is one write |
| `FileEndpoints.FileReceiver.OnMeta` | src/file_receiver.cpp:33-46 | the first well-formed description whose destination opens starts the transfer, unmarked and consistent; a malformed one, a failed opening or a second one is refused |
| `FileEndpoints.FileReceiver.WriteChunk` | src/file_receiver.cpp:75-84 | the positioned-write loop puts down the bytes the disk takes before it fails |
| `FileEndpoints.FileReceiver.OnChunk` | src/file_receiver.cpp:48-114 | refines the delivery step for any chunk, any series of partial writes and a readable or unreadable file |
| `FileEndpoints.FileReceiver.IsComplete` | src/file_receiver.cpp:116-118 | true exactly if all chunks are marked and the digest was computed, whatever its outcome |
| `FileEndpoints.FileReceiver.MissingChunks` | src/file_receiver.cpp:124-131 | the first missing chunks in order, at most as many as asked for, out of total - received; none before a description |
| `FileEndpoints.FileSender.SendNext` | src/file_sender.cpp:78-114 | sends what the read at the current index gives, the whole chunk if the read is complete, and moves on; or nothing moves |
| `FileEndpoints.FileSender.Seek` | src/file_sender.cpp:116-120 | any index up to and including the total |
| `FileEndpoints.OpenSender` | src/file_sender.cpp:25-68 | refuses exactly chunk sizes out of bounds, unreadable files, bad names and chunk counts over 32 bits; the description has the rounded-up chunk count |
| `FileEndpoints.CheckName` | src/sl_file_meta.c:73-84 | accepts exactly the names of 1 to 256 bytes without slashes, control bytes or two dots in front |
| `TokenBucket.GrantsAreBounded` | src/sl_token_bucket.c:12-47 | over any run of calls and any clock: bytes granted <= capacity + rate x time since the clock was first seen running, despite rounding and skipped refills; no overflow assumption is needed |
| `TokenBucket.WaitIsEnough` | src/sl_token_bucket.c:49-56 | within 64 bits and unclamped: a request up to the capacity repeated at any time from the reported wait on succeeds if and only if the wait was zero or the clock read more than zero when asked |
| `TokenBucket.ZeroClockFails` | src/sl_token_bucket.c:14-17 | the concrete case in which a clock reading zero makes the waited-for request fail |
| `TokenBucket.TokenBucket.constructor` | src/sl_token_bucket.c:31-39 | starts full, clock not seen |
| `TokenBucket.TokenBucket.Refill` | src/sl_token_bucket.c:12-29 | refines the refill step, 64-bit wrap included |
| `TokenBucket.TokenBucket.TryTake` | src/sl_token_bucket.c:41-47 | refines the take step |
| `TokenBucket.TokenBucket.WaitMs` | src/sl_token_bucket.c:49-56 | refines the wait computation and its clamp |
| `Utf8.CharSound` | src/sl_input_sanitize.c:24-50 | what one turn of the loop accepts is the encoding of a scalar value (section 3 of RFC 3629) |
| `Utf8.CharComplete` | src/sl_input_sanitize.c:24-50 | every encoding of a scalar value is accepted whatever follows |
| `Utf8.AcceptsExactlyWellFormed` | src/sl_input_sanitize.c:20-53 | the recogniser accepts exactly the encodings of sequences of scalar values |
| `Utf8.ReadChar` | src/sl_input_sanitize.c:24-48 | the inner loop computes the character specified |
| `Utf8.IsValidUtf8` | src/sl_input_sanitize.c:20-53 | true if and only if some sequence of scalar values encodes to the buffer; terminates |
| `Circular.StoreAppends` | src/sl_ring.c:41-48 | writing after the held bytes, across the wrap, appends to them |
| `Circular.Advance` | src/sl_ring.c:57-64 | moving the reading end, across the wrap, drops the oldest bytes |
| `Circular.Ring.Push` | src/sl_ring.c:35-49 | appends as many bytes as fit |
| `Circular.Ring.Pop` | src/sl_ring.c:51-65 | hands out and drops the oldest bytes |
| `Circular.Ring.Peek` | src/sl_ring.c:67-79 | hands out the oldest bytes and keeps them |
| `Circular.Ring.Discard` | src/sl_ring.c:81-87 | drops the oldest bytes |
| `Circular.NewRing` | src/sl_ring.c:6-15 | creation fails exactly for zero capacity |
| `Circular.SendQueue.Enqueue` | src/sl_send_queue.c:32-43 | all of the data or none; sent ++ pending = queued throughout |
| `Circular.SendQueue.Hand` | src/sl_send_queue.c:53-57 | one accepted send moves the reading end over the array slice given to the socket, which is the oldest pending bytes; sent grows by that slice |
| `Circular.SendQueue.OfferedIsPending` | src/sl_send_queue.c:49-53 | the bytes from the reading end to the end of the array are the oldest pending ones |
| `Circular.SendQueue.Offer` | src/sl_send_queue.c:48-60 | one turn: the socket receives exactly the prefix it takes of what is offered, and pending loses it |
| `Circular.DrainStops` | src/sl_send_queue.c:45-64 | a flush fails if and only if it comes upon a failed or empty send; otherwise it ends with the queue empty, at a send that would block, or with no result left |
| `Circular.EnoughSendsDrain` | src/sl_send_queue.c:45-64 | as many non-empty sends as bytes empty the queue |
| `Circular.SendQueue.Flush` | src/sl_send_queue.c:45-64 | for every series of partial writes, interruptions and failures: the socket has received exactly the drained bytes, pending holds the others, and the result is their number or minus one as the drain specifies |
| `Circular.NewSendQueue` | src/sl_send_queue.c:16-24 | creation fails exactly for zero capacity |

## Left out

- Statistics counters (multiplexer, broker, beacon server, file transfer): they would only add easy members; the replay guard's and RPC client's counters are modelled because laws are about them.
- `beacon_server.cpp` reaping of stale clients and acknowledgement building: easy members around the replay core.
- OpenSSL wrappers, key exchange, transcripts and the handshake engine: foreign calls; the AEAD is an ideal one, given by its laws.
- Sockets, listeners, event loop, daemon plumbing, loggers, metrics, health checks, registries, access-control lists, session manager.
- Threat score, anomaly detector, trace sampler, percentiles: floating point with exponentials and square roots.
- Thread pool and snapshot manager: the interesting claims are about wake-ups.
- Small fixed-size codecs and name tables, and the file chunk and metadata codecs: unpacking is an input to the receiver.
- Allocation failure, null arguments, durability: assumed away. Creation that refuses a zero size is modelled.
- Hash functions (`fnv1a`, `hash_bytes`): any function will do, so none is computed.
- `sl_token_bucket_set_rate`: the rate is fixed during a run.
- Stream phases and flow-control records are values inside the stream record rather than objects; aliasing between records is therefore not modelled.
- Machine words of the replay bitmap and the checksum register are sequences of bits; shifts and exclusive or are defined on them.
- Chained hash tables hold their chains as sequences, not linked cells; files are byte sequences.
- EventLog.Journal.constructor: a position beyond 2^63 is past the end of the file; the C addition overflows there.
- ResumeMap.Map.constructor: the map has a byte for every eight chunks, which the 32-bit rounding gives exactly up to `ResumeMap.AllocationCoversIff`; the larger counts are not modelled further.
- Rpc.RpcClient.Register: packing the request cannot fail for a name and body that have passed the checks before it (both limits are 128 and 16384), so that branch is left out.
- FileEndpoints.FileReceiver.OnMeta: unpacking the description is an input; what a refused one leaves in the fields before any is accepted is not observable and not stated.
- Multiplexer.StreamMultiplexer.PopOutbound: the order inside a priority band is the hash map's, so it is left open; no fairness is claimed.
- Beacon.BeaconServer.OnBeacon: the AEAD is an ideal one; the payload it opens is not kept.
