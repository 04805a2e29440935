# A Dafny model of DECNET's stateful cores

DECNET runs decoy hosts and correlates what attackers do to them. This project models the parts
of it whose correctness is not visible in any single function, and proves what they keep over
every run, every input or every byte stream:

- the service bus as one distributed system: clients that connect at any time, with deferred SUB
  tasks, two FIFO channels per connection, and a broker with bounded drop-oldest queues
  (`BusSystem`, `BusDelivery`, `BusProgress`, `BusEndpoints`, with `TopicMatching`, `DropOldest`
  and `Text`), and its channels down to the bytes on the sockets (`BusChannel`);
- the two codecs: bus frames (`WireFrames`) and DNS names and messages (`DnsNames`, `DnsMessages`);
- address arithmetic: the greedy CIDR cover and the tightest network (`Cidr`), and the bisect
  index over ranges (`AsnIndex`);
- caches that forget and must not be caught forgetting (`RateLimiter`, `SessionAggregator`,
  `FingerprintLimiter`);
- convergence and accounting: the fleet reconciler (`FleetReconciler`, `FleetConvergence`), the
  agent's topology store (`TopologyAgent`), the prefork master (`PreforkSupervisor`), rotation
  counters (`FingerprintRotation`) and the multi-actor correlator (`AttributionCorrelator`).

`dafny verify dfyconfig.toml` checks everything.

## How the model is built

Objects that the program mutates are classes whose methods carry the program's loops and branches;
each method's contract equates the new state with a function of the old one, and the theorems are
about those functions over whole runs. The bus is a state machine with one step for every point at
which control can change hands; the classes of `BusEndpoints` are shown to take exactly those
steps, and reading any received part of a connection's bytes is shown to be a run of them. Fields that only record history (what a queue ever held, what the broker accepted, when a
worker died) are marked as such where they are declared.

Inputs the model cannot see are parameters: clock readings, pids returned by `fork`, what docker
reports and whether it fails, the canonical hash, the topology validator, the attribution merger,
which event bodies decode and the bodies the broker writes. Times are real numbers. An event on the
bus is named by its position in the broker's log, which stands for its random id. The order in which
a table lists its rows is taken as unspecified, also between two reads of one request.

The ingestion limiter reads its clock before it takes its lock, so in lock order the readings can
step back; its theorems hold while none is more than 59 windows behind an earlier one, and
`FarBehindForgets` shows what happens beyond. The fingerprint limiter assumes readings that do not
decrease, as the monotonic clock of its one event loop gives, and the corollaries `EnvelopeIsExact`
and `DocumentedIffWithinTtl` assume so of event timestamps.

## Where the code does something else than its documentation

- `matches` documents `>` as "one or more trailing tokens". A `>` that is not the last token makes
  the rest of the pattern irrelevant. `MatchesAsDocumentedIff` shows that the documented meaning
  holds on all topics exactly for patterns with `>` in last place only.
- `from_ranges` documents "last writer wins" for equal starts. The sort key includes the end, so the
  furthest-reaching range wins. `LastWriterWinsIff` gives the exact inputs for which both agree,
  `WiderRangeStays` two ranges for which they do not.
- `asn` is documented to refuse an ordinary address only outside every range. With overlapping ranges
  an address behind a narrow range inside a wide one gets no answer either; 8.0.0.50 is one in
  `NarrowHidesWide`. `RefusesIff` says exactly which addresses are refused, and
  `RefusesAsDocumentedIff` for which inputs the documentation holds on every address.
- `_synthesize_prefix` documents "the most-specific CIDR". What it returns is the largest aligned
  block of the range around the address (`SynthesizePrefix`). The two are the same exactly when the
  range does not hold the address that differs in the last bit (`MostSpecificIff`); `FourAddresses`
  is a range where they differ.
- The agent is documented to hold one topology. The apply handler records an error row for any
  unexpected exception, and the validator raises on a topology without `lans`; if another topology
  is recorded at that moment the store holds two rows and a later apply can be refused with a
  conflict. `SingleTopologyIff` gives the exact condition for one row, `NeverRefusedIff` for never
  refusing a good request, and `CrashThenConflict` such a run.
- The reconciler is documented to converge. A decky pinned to another host that has no row here is
  inserted again by every pass (`PinnedElsewhereReinserted`); `SecondPassQuietIff` says exactly
  when the second pass is silent.
- The reconciler's bus is documented as best-effort notification. The topic of an event is built
  from host and decky name, outside the code that swallows publishing errors, and the builder raises
  on a dot, a wildcard or a space. Such a name ends the pass after its own write (`DottedNameStops`).
  `RunsToEndIff` says exactly when a pass runs to its end, `ReconcileOnce` what a stopped one leaves,
  and `TicksConverge` after how many ticks the rows have converged all the same.
- Section 4.1.4 of RFC 1035 reserves length bytes from 64 to 191 and lets a pointer refer only to a
  prior occurrence. The decoder takes such a byte as a length (`ReservedAccepted`) and follows a
  pointer forward (`ForwardAccepted`). `StrictIffAllowedWalk` says on the packet exactly when what it
  decodes is a name that the section allows.
- A subscription closed before its deferred SUB frame is sent leaves its pattern at the broker.
  `StaleIffLateTask` says exactly when that happens and `StaleRun` is such a run, for every pattern;
  the client's own filter hides the effect.
- The ingestion limiter treats a key it never accepted as accepted at time 0, so an event read at a
  clock below one window is dropped even when it is the first of its key (`FirstOfKeyPassesIff`,
  `EarlyFirstDropped`).
- A session envelope is documented to hold the commands of `[ended_at - duration, ended_at]`. The TTL
  caps the window (`EnvelopeIsExact`), timestamps that run backwards evict or admit others
  (`EnvelopeInAnyOrder`), and a negative duration counts as zero. `DocumentedIffWithinTtl` says exactly
  when the envelope is the documented one for timestamps that do not decrease,
  `DocumentedIffKeptAsDue` for timestamps in any order. `LongSessionIsCut`, `LateCommandIsListed` and
  `NegativeDurationLists` are runs, for every TTL, where it is not.
- The reconciler is documented never to see rows of other hosts. For an empty host name the
  repository lists them all, and the pass deletes those that the state file does not name
  (`UnnamedRowDeleted`); for any other host name `PassOnPeerRow` holds.

## Model

| member | source | states |
|---|---|---|
| TopicMatching.ScanMatches | decnet/bus/base.py:171-192 | the index loop with its early returns decides the token-list match |
| TopicMatching.MatchesAsDocumentedIff | decnet/bus/base.py:147-192 | the scan accepts exactly the topics a pattern denotes, for all topics, if and only if `>` occurs in last place only |
| TopicMatching.LiteralMatchesItself | decnet/bus/base.py:184-192 | a pattern without wildcards matches itself and nothing else |
| TopicMatching.TreeMatches | decnet/bus/base.py:181-183 | `prefix.>` matches exactly the topics with the tokens of the prefix and at least one more |
| DropOldest.EnqueueDropOldest | decnet/bus/fake.py:126-143 | the retry loop leaves the newest items that fit, the new one last |
| WireFrames.ReadFrame | decnet/bus/protocol.py:99-132 | reading step by step from a stream gives the frame, clean end or error that its bytes determine, and leaves exactly the rest |
| WireFrames.GotMeans | decnet/bus/protocol.py:106-132 | bytes that read as a frame are a short line of a known verb and trimmed args, four length bytes, most significant first, and as many of body |
| WireFrames.MadeLikeThatReads | decnet/bus/protocol.py:106-132 | and all bytes made like that read as the frame, leaving the rest |
| WireFrames.EncodableIff | decnet/bus/protocol.py:79-95 | a message can be encoded if and only if it has one of the six verbs, no line end in its args, at most 1048576 bytes of body, ASCII args and a header line of at most 4096 bytes |
| WireFrames.WireLooks | decnet/bus/protocol.py:90-96 | its bytes are the line, a newline, the length, most significant byte first, and the body |
| WireFrames.ReadEncoded | decnet/bus/protocol.py:72-132 | an encoded message followed by anything reads back as its verb, trimmed args and exact body |
| WireFrames.StreamRoundTrip | decnet/bus/protocol.py:72-132 | any list of encodable messages, concatenated, reads back in order and ends cleanly |
| WireFrames.CutStream | decnet/bus/protocol.py:106-131 | the stream cut after any byte yields exactly the messages that arrived whole, with a clean end if and only if the cut is at a message boundary |
| WireFrames.PrefixYieldsPrefix | decnet/bus/protocol.py:99-132 | for arbitrary bytes, what a prefix yields is a prefix of what the whole yields |
| WireFrames.CarriedUnchanged | decnet/bus/protocol.py:90-132 | exactly the non-empty trimmed patterns arrive at the broker as they were sent |
| WireFrames.PrintableCarriedIff | decnet/bus/protocol.py:79-96 | every non-empty visible ASCII text travels behind each of the six verbs, exactly up to the length that fits |
| BusDelivery.SubscriptionAgreement | decnet/bus/unix_client.py:193-232 | in every interleaving each live local pattern has a SUB task pending or is in the broker's set once the frames in flight are read |
| BusDelivery.DrainedAgreement | decnet/bus/unix_server.py:184-198 | once tasks and channel are drained the broker holds every live local pattern |
| BusDelivery.StaleIffLateTask | decnet/bus/unix_client.py:199-223 | an unwanted pattern stands at the broker if and only if its deferred SUB ran when nobody wanted it, and nobody has since |
| BusDelivery.StaleRun | decnet/bus/unix_client.py:193-223 | for every pattern, subscribing and closing before the task runs leaves it at the broker with nothing in flight |
| BusDelivery.DeliveredInOrder | decnet/bus/unix_server.py:216-249 | consumed plus queued events are in order of acceptance, without repeats, matching, and never from the own connection; queues are bounded suffixes of what was put on them |
| BusDelivery.NothingLost | decnet/bus/unix_client.py:234-269 | with no overflow and nothing in flight, every event accepted from elsewhere while a matching pattern stood has reached each matching live subscription made before it |
| BusDelivery.SettledSubscriptionIsServed | decnet/bus/unix_server.py:216-249 | once a connection's tasks and frames have drained, every later matching event from elsewhere is sent to it for as long as the subscription lives, and with no overflow and nothing in flight it has arrived |
| BusDelivery.ReaderNeverStuck | decnet/bus/unix_client.py:238-251 | whatever is on the socket to a client can be dispatched |
| BusDelivery.PublishedReachesBroker | decnet/bus/unix_client.py:159-191 | accepted events of a client followed by its PUB frames in flight are exactly what it published, in order |
| BusProgress.CanComeToRest | decnet/bus/unix_server.py:238-249 | every run can be continued until nothing is pending for a connection, with the same subscriptions and without dropping anything |
| BusProgress.CanArrive | decnet/bus/unix_client.py:234-269 | with nothing dropped so far every run can be continued to one after which a settled subscription has been handed each later matching event from elsewhere |
| BusProgress.CanDeliver | decnet/bus/unix_client.py:159-191 | from any run with a settled subscription that lost nothing, what another client then publishes under a matching topic can be handed to it |
| BusProgress.CanDeliverFromBroker | decnet/bus/unix_server.py:142-146 | the same for an event of the broker itself |
| BusProgress.DropsOnlyAtCapacity | decnet/bus/unix_server.py:297-310 | a step loses an event only where 1024 are waiting already |
| BusChannel.ChannelIsBytes | decnet/bus/unix_server.py:173-182 | whatever part of the bytes a client wrote has arrived, the broker reads exactly its complete frames, with a clean end only between frames |
| BusChannel.BytesAreServerReads | decnet/bus/unix_server.py:173-214 | dispatching what those bytes hold is a run of the system with one broker read for each complete frame |
| BusChannel.EventsAreBytes | decnet/bus/unix_client.py:234-251 | whatever part of the bytes has arrived at the client, it reads exactly the complete events, with the topic that was accepted and the body that the broker wrote for the event |
| BusEndpoints.UnixSocketBus.Subscribe | decnet/bus/unix_client.py:193-204 | adds a subscription with an empty queue and schedules its SUB, as the model's subscribe step |
| BusEndpoints.UnixSocketBus.RunDeferredSub | decnet/bus/unix_client.py:206-212 | a scheduled task sends its SUB frame behind all earlier frames |
| BusEndpoints.UnixSocketBus.Unregister | decnet/bus/unix_client.py:214-223 | removes one subscription and sends UNSUB only when no other wants the pattern, as the model's close step |
| BusEndpoints.UnixSocketBus.Dispatch | decnet/bus/unix_client.py:266-269 | offers the event to every matching subscription and to no other, as the model's read step |
| BusEndpoints.BusServer.Connect | decnet/bus/unix_server.py:150-157 | a client that connects at any time gets a connection with no patterns and an empty queue, beside the others |
| BusEndpoints.BusServer.FanOut | decnet/bus/unix_server.py:216-236 | every connection with a matching pattern gets the event, except the origin |
| BusEndpoints.BusServer.Dispatch | decnet/bus/unix_server.py:184-214 | SUB adds, UNSUB discards, PUB with a decodable body fans out with its connection as origin, HELLO and BYE change nothing, and exactly the other frames are protocol errors without effect |
| BusEndpoints.BusServer.ReaderLoop | decnet/bus/unix_server.py:173-182 | everything a peer sent is dispatched in order up to the first frame that ends the connection |
| BusEndpoints.BusServer.WriteNext | decnet/bus/unix_server.py:238-249 | the oldest outbound event goes to the socket |
| Cidr.SynthesizePrefix | decnet/asn/lookup.py:33-43 | answers for every address of every valid range, with an aligned block of the range around the address that covers every other such block |
| Cidr.MostSpecificIff | decnet/asn/lookup.py:33-43 | the answer is the smallest block around the address if and only if the range does not hold the address that differs in the last bit |
| Cidr.TightestIsTightest | decnet/network.py:457-467 | the network contains all addresses and lies in every network that does |
| AsnIndex.FromRanges | decnet/asn/lookup.py:56-76 | for every address the index entry is the one a scan of the unsorted input picks |
| AsnIndex.PickIsBest | decnet/asn/lookup.py:64-72 | the scan picks the greatest start not above the address, then the greatest end, then the latest in the input |
| AsnIndex.SortPermutes | decnet/asn/lookup.py:64 | sorting keeps exactly the given ranges |
| AsnIndex.BisectRight | decnet/asn/lookup.py:102 | everything before the result is at most the key and everything after is above it |
| AsnIndex.Asn | decnet/asn/lookup.py:78-109 | answers as the scan of the input ranges does, with the covering prefix; nothing for malformed, IPv6 and special addresses |
| AsnIndex.AnswerIsBest | decnet/asn/lookup.py:101-109 | the range that answers is the best of those that start at or before the address, and only if it reaches it |
| AsnIndex.DisjointAnswer | decnet/asn/lookup.py:101-109 | on disjoint ranges it is the one that contains the address |
| AsnIndex.DisjointRefinesScan | decnet/asn/lookup.py:101-109 | on non-empty disjoint ranges the answer is that of linear membership |
| AsnIndex.RefusesIff | decnet/asn/lookup.py:78-109 | an address gets no answer if and only if it is malformed, IPv6, special, outside every range, or ordinary and hidden behind a later range that ended |
| AsnIndex.RefusesAsDocumentedIff | decnet/asn/lookup.py:78-85 | whichever addresses are special, the documented refusals are the only ones if and only if no ordinary address is hidden |
| AsnIndex.NarrowHidesWide | decnet/asn/lookup.py:101-109 | two ranges of ordinary addresses and an address in one of them that is refused |
| AsnIndex.LastWriterWinsIff | decnet/asn/lookup.py:57-71 | the documented tie-break holds for every address if and only if in each group of equal starts the last range reaches furthest |
| DnsNames.DecodeName | decnet/canary/dns_server.py:40-79 | the iterative walk terminates on every buffer and gives the labels, the rendered name and the bytes occupied |
| DnsNames.DecodesExactlyExpansions | decnet/canary/dns_server.py:52-78 | decoding succeeds with these labels if and only if they are the expansion of the name with at most ten jumps |
| DnsNames.StrictIffAllowedWalk | decnet/canary/dns_server.py:52-78 | a packet holds a name that section 4.1.4 of RFC 1035 allows, within ten jumps, if and only if the decoder accepts it and neither a length byte from 64 to 191 nor a pointer that does not point back stands on the walk |
| DnsNames.ForwardAccepted | decnet/canary/dns_server.py:61-71 | a packet whose pointer goes forward is decoded although the section allows no name there |
| DnsNames.SpanInBuffer | decnet/canary/dns_server.py:53-69 | a decoded name occupies at least one byte and never reaches past the buffer |
| DnsNames.EncodeName | decnet/canary/dns_server.py:101-110 | the loop writes the length-prefixed non-empty labels and the final zero, or fails on an over-long label |
| DnsNames.EncodesIff | decnet/canary/dns_server.py:101-110 | a name can be encoded if and only if none of its labels is longer than 255 |
| DnsNames.NameRoundTrip | decnet/canary/dns_server.py:40-110 | a name with labels below 192 bytes, written anywhere, decodes to its normal form and occupies what was written |
| DnsNames.PlainIsNormal | decnet/canary/dns_server.py:79-108 | the root and dotted lower-case ASCII names are their own normal form |
| DnsNames.NormalIffPlain | decnet/canary/dns_server.py:79-108 | a name is its own normal form if and only if it is the root or dotted non-empty lower-case ASCII labels |
| DnsNames.NormalizeMeans | decnet/canary/dns_server.py:79-108 | a name without empty labels keeps its length, each capital becomes its small letter and what is not ASCII a question mark |
| DnsNames.LabelText | decnet/canary/dns_server.py:75-79 | a decoded label has one character per byte, in small letters, and the replacement character for bytes above 127 |
| DnsMessages.QueryParses | decnet/canary/dns_server.py:82-98 | every query with one question parses to its identifier, name, type, class and flags, whatever its flags and other counts are and whatever follows it |
| DnsMessages.ParsesIff | decnet/canary/dns_server.py:82-98 | on arbitrary bytes parsing succeeds if and only if there is a header with one question, a name spelled within ten jumps, and four bytes after it |
| DnsMessages.ParsedIs | decnet/canary/dns_server.py:82-98 | and the query is what those bytes say, most significant byte first |
| DnsMessages.ResponseParses | decnet/canary/dns_server.py:82-141 | parsing a built response recovers id, name in normal form, type, class and flags |
| DnsMessages.PlainQueryRoundTrip | decnet/canary/dns_server.py:82-141 | for plain names the query comes back unchanged except for the flags |
| DnsMessages.ReceivedQueryAnswered | decnet/canary/dns_server.py:82-141 | for every packet that parses, the response can be built and parses back to the query with its name in normal form, and to the same query if and only if the name is plain |
| DnsMessages.AnswerNameDecodes | decnet/canary/dns_server.py:134-139 | the answer's name pointer decodes to the question's name in exactly two bytes |
| DnsMessages.AnswerRecordReads | decnet/canary/dns_server.py:125-141 | the answer count tells whether a record follows, and the record reads as address, Internet, sixty seconds and the given octets |
| DnsMessages.ResponseHeaderBytes | decnet/canary/dns_server.py:113-133 | the header carries the identifier, the response and authoritative bits, the code, one question, and one answer exactly for an address query with code zero and an address |
| DnsMessages.PointerDecodes | decnet/canary/dns_server.py:61-71 | a pointer to any position below 2^14 decodes as the name there, in two bytes |
| RateLimiter.Limiter.ShouldIngest | decnet/collector/worker.py:99-129 | decision and new table, including the deletion loop of the collection |
| RateLimiter.CollectionInvisible | decnet/collector/worker.py:115-128 | over every run whose readings lag by at most 59 windows each decision equals that of a limiter that remembers the whole history |
| RateLimiter.AcceptedApart | decnet/collector/worker.py:116-121 | two accepted events of a rate-limited key are at least a window apart, the later call with the later reading |
| RateLimiter.UnlimitedPasses | decnet/collector/worker.py:105-109 | an event of another type, or with no window, is accepted unless its service is dropped, and leaves the table as it was |
| RateLimiter.TableAfterAccept | decnet/collector/worker.py:121-128 | after an accepted event the table holds its time and, when over the cap, nothing older than sixty windows, and it lost nothing newer |
| RateLimiter.FirstOfKeyPassesIff | decnet/collector/worker.py:118-120 | an event whose key was never accepted passes if and only if the clock has reached one window |
| RateLimiter.FarBehindForgets | decnet/collector/worker.py:122-128 | a call that read its clock further back is accepted although the whole history would drop it |
| SessionAggregator.Aggregator.AddEvent | decnet/collector/worker.py:229-244 | skips unusable events, evicts, then indexes or emits |
| SessionAggregator.Aggregator.EvictExpired | decnet/collector/worker.py:246-254 | keeps exactly the commands inside the TTL and drops addresses with none |
| SessionAggregator.Aggregator.EmitSession | decnet/collector/worker.py:256-307 | publishes one envelope with the commands of the session's window |
| SessionAggregator.EnvelopeIsExact | decnet/collector/worker.py:229-307 | over every run an envelope holds exactly the whole history's commands of the address within the duration capped by the TTL, in order, with distinct ids when there is a session id |
| SessionAggregator.IdsTell | decnet/collector/worker.py:297 | ids of named sessions tell session and position apart, others are address and time |
| SessionAggregator.DecimalMeans | decnet/collector/worker.py:297 | positions are written in decimal without leading zeros |
| SessionAggregator.EnvelopeInAnyOrder | decnet/collector/worker.py:229-307 | with timestamps in any order an envelope holds exactly the commands in the duration that no event since their arrival was a TTL ahead of |
| SessionAggregator.DocumentedIffWithinTtl | decnet/collector/worker.py:229-307 | for timestamps that do not decrease the envelope is the documented window if and only if no command of it is older than the TTL, or, for a negative duration, none is left at the end |
| SessionAggregator.DocumentedIffKeptAsDue | decnet/collector/worker.py:229-307 | in any order the envelope is the documented window if and only if each command the code would list is still indexed exactly when it lies in the window |
| FingerprintLimiter.Limiter.Allowed | decnet/canary/worker.py:71-82 | decision and new bucket |
| FingerprintLimiter.RefusedExactly | decnet/canary/worker.py:74-79 | a call is refused if and only if thirty allowed times of the whole history lie strictly within the last sixty seconds |
| FingerprintLimiter.WindowBound | decnet/canary/worker.py:66-82 | thirty-one consecutive allowed times of a key span at least sixty seconds |
| FleetReconciler.AggregateMeaning | decnet/fleet/reconciler.py:80-101 | each of the four states is answered exactly under its documented condition |
| FleetReconciler.ExpectedMeans | decnet/fleet/reconciler.py:92 | a container is expected if and only if its name is that of the decky, a dash, and that of a service with dashes for underscores |
| FleetReconciler.TallyMeans | decnet/fleet/reconciler.py:119-192 | the counters are the numbers of writes of each kind |
| FleetReconciler.ReconcileOnce | decnet/fleet/reconciler.py:106-227 | for every host name: a finished pass has done the three phases, counted every write and announced each one on a supplied bus; a stopped one has done them up to and including the first write whose name fits into no topic, and announced those before it |
| FleetConvergence.PassOnLocalRow | decnet/fleet/reconciler.py:134-190 | which rows this host has afterwards, each in the docker state of an entry of its name, with contents kept or taken from the entry |
| FleetConvergence.PassOnPeerRow | decnet/fleet/reconciler.py:154-167 | rows of other hosts are untouched unless the state file names them |
| FleetConvergence.UnnamedRowDeleted | decnet/web/db/sqlmodel_repo/fleet.py:76-82 | every row in scope that the state file does not name is deleted, for the empty host on every host |
| FleetConvergence.PassWithoutDocker | decnet/fleet/reconciler.py:134-170 | with docker unreadable the same names get rows, no surviving row changes, and a new row is its entry, running |
| FleetConvergence.WritesTruthful | decnet/fleet/reconciler.py:134-190 | every write and event reports a difference that was there |
| FleetConvergence.OnePassConverges | decnet/fleet/reconciler.py:106-192 | unique names and local entries, no bus or no unsafe name to write: one pass finishes and makes this host's rows the state file's names in docker's states and leaves peers alone |
| FleetConvergence.QuietIffConverged | decnet/fleet/reconciler.py:134-190 | a pass writes nothing if and only if file, rows and docker agree |
| FleetConvergence.SecondPassQuietIff | decnet/fleet/reconciler.py:126-192 | after a finished pass the second one is silent if and only if every name has or gets a local row and same-named entries agree on their state |
| FleetConvergence.PinnedElsewhereReinserted | decnet/fleet/reconciler.py:135-151 | an entry pinned to another host whose name nothing here claims is inserted, and its name stays unclaimed, so every later pass inserts it again |
| FleetConvergence.RunsToEndIff | decnet/fleet/reconciler.py:195-227 | a pass runs to its end if and only if there is no bus or every row it is going to write fits into a topic |
| FleetConvergence.TickSettles | decnet/fleet/reconciler_worker.py:60-84 | a tick unsettles nothing and touches no other host; a finished one settles every row and a stopped one at least the row it stopped at |
| FleetConvergence.TicksConverge | decnet/fleet/reconciler_worker.py:60-84 | with a bus every run of ticks on unchanged inputs has settled every row after one tick more than there are unsafe names to write |
| FleetConvergence.DottedNameStops | decnet/bus/topics.py:639-653 | two new deckies, the first with a dotted name: with a bus one row, no event and an error; without a bus both rows |
| TopologyAgent.TopologyStore.Put | decnet/agent/topology_store.py:98-133 | refuses when the current row is another topology, else records hash and blob and clears the error |
| TopologyAgent.TeardownTopology | decnet/agent/topology_ops.py:156-193 | clears the row unless docker failed |
| TopologyAgent.TeardownSuperseded | decnet/agent/topology_ops.py:78-103 | a different current topology loses its row whether or not its teardown worked |
| TopologyAgent.ApplyTopology | decnet/agent/topology_ops.py:135-153 | hash check, validation, superseding, materialisation and recording, in this order, with each failure's effect on the store |
| TopologyAgent.ApplyLeaves | decnet/agent/app.py:275-296 | what a success, a refusal and a failed materialisation leave in the store |
| TopologyAgent.ApplyAnswers | decnet/agent/topology_ops.py:64-153 | which answer a request gets, for every store; with at most one row a request is applied if and only if hash, verdict, id and docker are good |
| TopologyAgent.TeardownLeaves | decnet/agent/topology_ops.py:156-193 | a teardown leaves every other row, and this one exactly when docker failed |
| TopologyAgent.OtherRowKept | decnet/agent/topology_ops.py:78-103 | the row of another topology goes exactly when a checked request found it current |
| TopologyAgent.ErrorRecorded | decnet/agent/topology_store.py:135-168 | a recorded error leaves hash, time and blob of an existing row, or a marker without hash and time, always with something to tear down from |
| TopologyAgent.HashesAlwaysMatch | decnet/agent/topology_store.py:98-168 | over every run each stored hash is empty or the canonical hash of the blob beside it |
| TopologyAgent.SingleRowKeptIff | decnet/agent/app.py:275-296 | a request keeps a single row if and only if it is not a validation crash against another recorded topology, and never conflicts |
| TopologyAgent.SingleTopologyIff | decnet/agent/app.py:275-310 | over every run there is at most one row throughout if and only if no such crash occurs, and then `put` never refuses |
| TopologyAgent.NeverRefusedIff | decnet/agent/topology_store.py:98-118 | over every run a good apply could be refused at no point if and only if no such crash occurs |
| TopologyAgent.CrashThenConflict | decnet/agent/app.py:285-295 | a run in which such a crash leaves two rows and a later apply is refused |
| PreforkSupervisor.Supervisor.RespawnElapsed | decnet/prefork.py:93-97 | exactly the workers whose backoff has elapsed are respawned, each under its own pid |
| PreforkSupervisor.Supervisor.ReapChild | decnet/prefork.py:99-113 | a reaped child becomes due after its backoff, which doubles up to the cap |
| PreforkSupervisor.SupervisionInvariant | decnet/prefork.py:84-113 | at every loop head each worker is running under one pid or due, spawns and deaths balance, and no respawn preceded its death plus backoff |
| PreforkSupervisor.ReapMeans | decnet/prefork.py:106-113 | a reaped pid is gone, its worker is due after the backoff of its earlier deaths, the death is counted, nothing changes for others, and an unknown pid changes nothing |
| PreforkSupervisor.TurnsTell | decnet/prefork.py:84-113 | over every run the children are the pids forked and not reaped since, under the names they were forked for, and spawns and deaths are counted as the forks and reaped pids say |
| PreforkSupervisor.ForksAndDeathsBalance | decnet/prefork.py:84-113 | counted from the turns, each worker was forked once more than reaped, or as often while it waits, and its backoff is that of its deaths |
| PreforkSupervisor.BackoffClosedFormIff | decnet/prefork.py:112-113 | after k deaths the backoff is the smaller of 2^k and the cap, for all k, if and only if the cap is at least one |
| FingerprintRotation.Session.RecordFingerprint | decnet/correlation/fingerprint_rotation.py:73-161 | after any history every key's row holds its last hash and its number of changes, and the answer is the one the key's history gives |
| FingerprintRotation.RowsCountFlips | decnet/correlation/fingerprint_rotation.py:84-129 | over every run a key's row holds its last hash and the number of adjacent differing hashes |
| FingerprintRotation.AttackerCountsSum | decnet/correlation/fingerprint_rotation.py:121-129 | an attacker's counter is the sum over its keys, however these are listed |
| FingerprintRotation.RowsTellTime | decnet/correlation/fingerprint_rotation.py:98-129 | a row holds the time of its key's last record |
| FingerprintRotation.AttackerTellsTime | decnet/correlation/fingerprint_rotation.py:121-129 | an attacker row holds the time of the last change of any of its keys |
| FingerprintRotation.OutcomeTells | decnet/correlation/fingerprint_rotation.py:76-161 | the reported outcome is what the key's whole history says |
| AttributionCorrelator.Correlator.Tick | decnet/correlation/attribution_worker.py:332-382 | the dedup table becomes the current snapshot, and with a bus exactly the identities whose set differs from the previous tick's are announced, once each |
| AttributionCorrelator.QualifyingIs | decnet/correlation/attribution_worker.py:332-350 | the snapshot holds exactly the identities with at least two primitives, each with the set of them |
| AttributionCorrelator.Worker.Handle | decnet/correlation/attribution_worker.py:216-256 | after any history the rows hold the merged state of each slot and the time of its last change, and with a bus what was published about each slot is the unbroken chain of its changes up to the stored row |
| AttributionCorrelator.TraceIsChain | decnet/correlation/attribution_worker.py:216-256 | each slot's transitions form an unbroken chain from nothing, never from a state to itself, ending in the stored row |
| AttributionCorrelator.TraceCompressesSeries | decnet/correlation/attribution_worker.py:216-256 | what is published is the series of merged states with repetitions removed |

## Left out

- Connection loss, reconnects, shutdown sentinels and task cancellation on the bus: a connection stays up once it is made, and wake-ups are not modelled.
- Patterns, topics and client names that cannot travel unchanged (untrimmed, over-long or not ASCII, and empty patterns and topics), and over-long bodies: `CarriedUnchanged`, `EncodableIff` and `PrintableCarriedIff` mark the boundary and the bus steps require it.
- Event bodies on the wire are opaque: which of them decode and what the broker writes into an EVT frame are parameters, and an event whose EVT frame would be too large, which the broker does not send, is not modelled.
- FakeBus and NullBus: the fake bus is the client's dispatch loop with another queue size, the null bus does nothing.
- TopologyAgent.TeardownTopology: bridges and containers are reduced to whether the docker part fails.
- TopologyAgent.ApplyTopology: docker networks, compose files and containers are reduced to whether a docker step fails.
- AsnIndex.Asn: parsing of address text and the list of special address blocks are inputs; saving and loading the index is not modelled.
- SessionAggregator.Aggregator.EmitSession: the shard lookup and the splitting of a command line into fields are not modelled; a command is an opaque text.
- Parsing of RFC 5424 log lines, of INI and environment settings, and static tables: nothing spans more than one function there.
- `allocate_ips`, the slug lookup of the name server, the shard index and the reaper: they would only add easy members.
