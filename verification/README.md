# Verified model of the SIP proxy's state

A Dafny model of the parts of the proxy whose correctness is hardest to see by reading one function:

- **High availability.** `Leadership` is the active-standby role protocol between two nodes: heartbeats,
  promotion, demotion, takeover of a silent peer. A run of the pair may deliver a heartbeat late, twice, out
  of order, never, or torn between the read of its role and the read of its epoch. `EventStore` is the
  persisted side (tables, replication log, retention, serving of events) and `Replication` the primary and
  its follower: background writes (memory first) and required writes (log first), pulled batches, failed
  batches, fuzzy snapshots, retention, restarts, retries.
- **Address indexes.** `Decomposition`, `Ranges`, `GeoIndex`, `Threat` and `CacheCodec` (over the arithmetic of
  `Bits` and `Arithmetic`): from CIDR lines to ranges, merged, validated, searched, cut into prefix blocks for the kernel's
  longest-prefix-match trie, and written to and read from the binary caches.
- **Proxy tables and limiters.** `TokenBucket`, `BucketPruning` and `KernelBucket` (rate limiting in user space
  and in the kernel), `HeaderList` (Via and Route lists), `HeaderGrammar` (which texts the list scanner takes as one
  element), `UdpTransactions` (absorbing UDP retransmissions), `RoundRobin` (upstream selection), `Affinity` (sharded expiring bindings).

Objects that the program updates in place are classes here; each of their methods is proved against a function
of the old state, and the lemmas prove what the program promises about that function over all inputs, or over
all runs of a transition system. Errors are results, not preconditions.

## Results worth knowing

- The highest-ranked leadership begun so far is always still active. No delivery order, duplication or
  timeout can leave both nodes standby once one has been active.
- A replica agrees with the primary as soon as it has persisted the newest version it has met, provided that
  no accepted event is an upsert that has already expired and meets a row that has not. For a replica in
  step with the history, that condition is also necessary. `LateReplayKeepsOldRegistration` is a concrete
  failing case: a shortened registration that is replayed late leaves the longer one in place.
- A follower's tables, and the primary's own, are each compared with the last write of every slot, not with the code
  that stores it (`FoldIsLastWrite`, `TablesHold`).
- A header line is split at a comma exactly if the text before it is a sequence of plain characters, quoted strings
  and balanced angle groups; a line that no comma splits is rejected exactly if it ends inside a quoted string
  (`SplitIsGrammar`).
- A required write is logged before it reaches memory. The replica still converges unless a snapshot row is
  read while such a write, already counted in the snapshot's number, has not reached memory; in between, a
  snapshot is exact if and only if the write changes no live row (`SnapshotInBetweenIsExactIff`).
- A follower that is behind learns it if and only if the log is not empty: a log emptied by retention
  answers that there is nothing new.
- The kernel limiter never passes more than burst + length * rate packets in any window, although its
  64-bit product wraps: a wrap only ever loses tokens. It can therefore drop a packet that waited long
  enough; `PassesIff` says exactly when, and `IdleProductWrapsToZero` is a case.
- Forgetting a token bucket after ten idle minutes is unobservable if and only if every limiting policy has
  a burst below one token or at most 600 times its rate.
- The affinity counter is exact in sequential use, but a removal by key subtracts after releasing its shard.
  If a whole-table installation falls in between, the counter stays too low by one for each such removal
  until the next installation, and can pass below zero; it does so if and only if such an overlap occurred.
  Today's only caller of the removal and the only run-time caller of the installation share one sequential
  loop, so the overlap does not arise there.
- Installing an affinity snapshot restores its unexpired bindings if and only if none of them lives 2^64
  milliseconds or more, because the remaining lifetime is cut to 64 bits.

## Model

| member | source | states |
|---|---|---|
| Leadership.ActiveStandbyRuntime.constructor | src/ha/mod.rs:140-150 | a node starts in its configured role with epoch 1 |
| Leadership.ActiveStandbyRuntime.Promote | src/ha/mod.rs:168-174 | only a node that is not active is promoted, and this raises its epoch by one |
| Leadership.ActiveStandbyRuntime.Demote | src/ha/mod.rs:176-178 | a demoted node is a follower and keeps its epoch |
| Leadership.ActiveStandbyRuntime.Reconcile | src/ha/mod.rs:450-518 | the new role and epoch for each pair of roles; a failed required hook leaves the node as it was and ends the monitor |
| Leadership.ActiveStandbyRuntime.MonitorTick | src/ha/mod.rs:338-448 | the node reconciles with a reply; a node that is then standby and has waited out the failover timeout leads with the next epoch if its hook allows, and otherwise ends the monitor as it was; the tick fails exactly when a required hook does |
| Leadership.DeliveredWasBegun | src/ha/mod.rs:160-166 | an active heartbeat, however late or torn between its two reads, describes a leadership that was begun before it is handled |
| Leadership.TopIsNotDemoted | src/ha/mod.rs:450-526 | no step changes the node that holds the highest-ranked leadership begun so far |
| Leadership.SomeLeaderIsUnbeaten | src/ha/mod.rs:139-179 | in every run, once any node has been active, some active node holds a leadership that none begun so far beats |
| Leadership.HighestLeadershipStillActive | src/ha/mod.rs:438-526 | in every run the highest-ranked leadership begun so far is still active with the same epoch |
| Leadership.NeverAllStandby | src/ha/mod.rs:438-526 | once a node has been active, the pair is never all standby |
| Leadership.AtMostOneDemotion | src/ha/mod.rs:450-518 | a stretch of a run without a promotion contains at most one demotion |
| Leadership.WinnerStays | src/ha/mod.rs:450-482 | of two active nodes the better-ranked one stays as it is while nobody is promoted |
| Leadership.DualActiveResolves | src/ha/mod.rs:450-526 | from dual-active, once the lower-ranked node has handled a heartbeat sampled in the stretch, exactly it has stepped down |
| Leadership.TwoStandbysResolve | src/ha/mod.rs:450-499 | of two standby nodes, the one with the lower id leads with its next epoch once it has handled a heartbeat sampled in the stretch |
| Leadership.TickIsSteps | src/ha/mod.rs:338-448 | whatever a tick does, with or without a reply, is a heartbeat or a timeout step of the pair or both, so every run of ticks is a run the theorems speak of |
| Leadership.BothActiveAtStart | src/ha/mod.rs:450-482 | a concrete run in which both nodes start active and the one with the higher id steps down |
| EventStore.Persistence.AppendEvent | src/persistence.rs:673-682 | the event gets the next sequence number and becomes the log's last row |
| EventStore.Persistence.ApplyBackgroundWrites | src/persistence.rs:491-517 | a batch appends every write to the log with its number and date; a slot holds the row of its last write, or none if that was a deletion, and a slot that no write names is unchanged |
| EventStore.Persistence.CleanupExpired | src/persistence.rs:310-337 | row by row, drops exactly the expired rows and the events past retention |
| EventStore.Persistence.ApplyEvent | src/persistence.rs:771-794 | replays one event and records its number; an expired upsert changes no row |
| EventStore.Persistence.InstallSnapshot | src/persistence.rs:282-308 | the tables show exactly the snapshot's live rows and store no expired one, and the applied number is the snapshot's |
| EventStore.FoldIsLastWrite | src/persistence.rs:553-598 | the fold of a history holds exactly the last write of each slot, and nothing for a slot that was never written |
| EventStore.BatchTakesEffect | src/persistence.rs:491-517 | slot by slot and record by record, the effect of a batch on tables and log |
| EventStore.RetentionDropsPrefix | src/persistence.rs:310-337 | retention drops exactly the prefix of the log that is past the horizon |
| EventStore.AppendKeepsLog | src/persistence.rs:673-682 | an append keeps the log a contiguous, dated window of the history |
| EventStore.CleanupKeepsLog | src/persistence.rs:310-337 | retention keeps the log a contiguous, dated window of the history |
| EventStore.ServesExactlyTheNextEvents | src/persistence.rs:729-769 | a non-empty log demands a snapshot exactly when the next event is gone, and otherwise serves exactly the next events up to the clamped limit |
| EventStore.BehindFollowerIsToldIff | src/persistence.rs:729-769 | a follower that is behind is told so if and only if the log is not empty; an empty log answers that there is nothing new |
| EventStore.ServedEventsAreHistory | src/persistence.rs:729-769 | whatever is served is the history's event of that number |
| Replication.Replica.ApplyHaEvent | src/proxy/server.rs:638-665 | an event reaches memory, and then the tables if the transaction succeeds |
| Replication.Replica.ApplyHaEvents | src/ha/mod.rs:718-732 | a batch stops at the first event out of sequence and at the first failed transaction |
| Replication.Replica.InstallStateSnapshot | src/proxy/server.rs:553-575 | memory becomes the snapshot's unexpired rows, and so do tables and applied number unless persisting fails |
| Replication.BatchSkipsNothing | src/ha/mod.rs:718-732 | wherever a batch stops, the applied number advanced over exactly the replayed events, numbered consecutively, none skipped |
| Replication.BatchReachesMemory | src/ha/mod.rs:718-732 | memory has met exactly the consecutive events up to the first out of sequence, or up to and including the first whose transaction failed |
| Replication.ReplayLiftsVersions | src/persistence.rs:771-794 | replaying the next event turns rows of its number's version or later into rows of the following version or later |
| Replication.SnapshotIsFresh | src/proxy/server.rs:531-551 | unless read behind its number, each row of a fuzzy snapshot is a version of the history no older than the number the follower ends up with |
| Replication.LogHolds | src/persistence.rs:310-337 | in every run of writes and retention the log is a contiguous, dated window of the history |
| Replication.TablesHold | src/persistence.rs:491-517 | in every run the primary's tables show, up to expired rows, the fold of exactly the writes that were logged |
| Replication.MemoryHolds | src/cluster/mod.rs:140-152 | in every run memory shows each slot's last write, or the version just before it while that write is logged and waits |
| Replication.EveryRunServesTheNextEvents | src/persistence.rs:729-769 | in every state of every run with a non-empty log, a snapshot is demanded exactly when the next event is gone, and otherwise exactly the next logged writes are served |
| Replication.InvHolds | src/proxy/server.rs:531-575 | in every run without a stale upsert or a row read behind its snapshot's number, every row of the follower is a version between its applied number and the newest it met |
| Replication.ReplicaConverges | src/ha/mod.rs:588-732 | in every run without a stale upsert or a row read behind, a follower that has persisted up to the newest version it met shows exactly the fold of the history up to there |
| Replication.CaughtUpReplicaAgreesWithPrimary | src/ha/mod.rs:588-732 | in such a run, a follower that persisted the whole history shows the primary's live row of every slot whose last write has reached the primary's memory |
| Replication.FuzzySnapshotThenReplay | src/proxy/server.rs:531-575 | in such a run, after a snapshot overlapping m writes, whatever else happens but another snapshot, once the events up to any n >= m are persisted and failed ones retried, the follower shows the fold of the first n writes |
| Replication.ReplayIsFaithfulIff | src/persistence.rs:771-794 | replay into the tables keeps an in-step replica in step if and only if the event is not an expired upsert over a live row |
| Replication.MemoryReplayIsFaithfulIff | src/proxy/server.rs:638-665 | replay into memory keeps an in-step replica in step if and only if the event is an affinity event or not an expired upsert over a live row |
| Replication.LateReplayKeepsOldRegistration | src/persistence.rs:771-794 | the concrete registration that a late replay gets wrong |
| Replication.SnapshotInBetweenIsExactIff | src/cluster/mod.rs:140-146 | a snapshot taken between the logging of a required write and its memory step is exact if and only if the write changes no live row |
| Replication.NumbersReadAtRestAreCurrent | src/proxy/server.rs:531-551 | if no required write waits whenever a snapshot's number is read, no row is ever read behind it |
| Replication.BackgroundRunsAreCurrent | src/cluster/mod.rs:147-152 | without required writes no row is ever read behind |
| Decomposition.LargestBlock | src/proxy/geo.rs:783-824 | the inner loop finds the largest aligned block from the start that does not pass the end |
| Decomposition.AppendRangePrefixes | src/proxy/geo.rs:783-833 | the outer loop terminates, stays within 128 bits and appends the greedy cover, also for ranges that end at the maximum address |
| Decomposition.BlocksAreAligned | src/proxy/geo.rs:783-815 | every block is aligned to its size and no larger than the address space |
| Decomposition.BlocksTileTheRange | src/proxy/geo.rs:783-815 | the blocks follow each other without gap from the range's start to its end |
| Decomposition.CoversExactly | src/proxy/geo.rs:783-815 | an address is in some block if and only if it is in the range |
| Decomposition.BlocksIncrease | src/proxy/geo.rs:783-815 | the blocks are increasing and pairwise disjoint |
| Decomposition.AtMostTwoBlocksPerBit | src/proxy/geo.rs:783-815 | at most two blocks per address bit |
| Decomposition.NoShorterCover | src/proxy/geo.rs:783-815 | no list of aligned blocks covers the range exactly with fewer blocks |
| Decomposition.PrefixListIsGreedy | src/proxy/geo.rs:783-815 | the emitted prefixes are the blocks of the greedy cover, with their lengths and country |
| Ranges.NormalizeRanges | src/proxy/geo.rs:835-865 | the in-place merge of the sorted ranges computes the specified normal form |
| Ranges.ValidateNonOverlapping | src/proxy/geo.rs:867-883 | accepts exactly the lists in which every range ends before the next starts |
| Ranges.NormalizationIsExact | src/proxy/geo.rs:835-865 | normalisation keeps each country's addresses, also where the end is the maximum address and the addition saturates |
| Ranges.ValidIffNoConflict | src/proxy/geo.rs:835-883 | validation after normalisation succeeds if and only if no address is claimed for two countries |
| Ranges.Lookup | src/proxy/geo.rs:748-781 | the binary search returns the country of the first range holding the address, or nothing if no range holds it |
| Ranges.FindCountryUnique | src/proxy/geo.rs:748-781 | in a validated list the range that holds an address decides its country |
| GeoIndex.CidrRangeIsExact | src/proxy/geo.rs:900-926 | the range of a CIDR lies in the address space and holds exactly the addresses that match it (section 3.1 of RFC 4632) |
| GeoIndex.CidrIsBlock | src/proxy/geo.rs:900-926 | in numbers, an address matches if it has the CIDR's quotient by the block size, and the range is that block |
| GeoIndex.CidrEnds | src/proxy/geo.rs:900-926 | a full-length prefix is one address, an empty one the whole address space, and a prefix is refused exactly if it is longer than 32 or 128 bits |
| GeoIndex.AppendRanges | src/proxy/geo.rs:548-581 | fails exactly when some prefix is too long for its family, and otherwise pushes each line's range, in order, to its family's list |
| GeoIndex.FetchGeoSnapshot | src/proxy/geo.rs:440-449 | normalises and validates both families; fails exactly when the specification does |
| GeoIndex.BuiltIffUndisputed | src/proxy/geo.rs:440-449 | a snapshot is built if and only if every prefix fits its family and no address is listed for two countries |
| GeoIndex.BuiltSnapshotIsSearchable | src/proxy/geo.rs:867-883 | every snapshot that is built has sorted, disjoint, non-empty ranges within the address space |
| GeoIndex.AppendFamily | src/proxy/geo.rs:338-353 | one family's ranges become their prefix blocks, in order |
| GeoIndex.XdpPrefixes | src/proxy/geo.rs:338-353 | the kernel's list is the prefix blocks of the IPv4 and then of the IPv6 ranges |
| GeoIndex.LongestMatch | bpf/sigproxy_xdp.c:387-402 | the trie lookup finds a matching entry of greatest prefix length, and nothing only if none matches |
| GeoIndex.RangeMatches | src/proxy/geo.rs:783-833 | the entries of a range match exactly its addresses |
| GeoIndex.XdpMatches | src/proxy/geo.rs:338-353 | an entry of a country matches an address if and only if a range of that country holds it |
| GeoIndex.LookupInSnapshot | src/proxy/geo.rs:330-336 | the user-space lookup searches the address's family |
| GeoIndex.LookupsAgree | src/proxy/geo.rs:330-353 | for every address the binary search, the kernel's longest-prefix match and a scan of the CIDR lines give the same country, or all none |
| Threat.BuildSnapshotFrom | src/proxy/threat.rs:481-521 | deduplicating, sorting, splitting and merging compute the specified snapshot |
| Threat.NormalizedIsValid | src/proxy/threat.rs:523-540 | clearing a prefix's host bits keeps it valid and changes neither its addresses nor, a second time, itself |
| Threat.NormalizedIsNetwork | src/proxy/threat.rs:523-540 | a normalised prefix begins at the multiple of its block size at or below its address |
| Threat.SnapshotPrefixes | src/proxy/threat.rs:481-500 | a snapshot lists exactly the networks of the feed's prefixes, each once, IPv4 first, then by address and prefix length |
| Threat.SortedIsUnique | src/proxy/threat.rs:481-500 | the sorted, deduplicated prefix list is determined by its elements |
| Threat.LookupThreat | src/proxy/threat.rs:596-628 | the binary search hits exactly when some range holds the address |
| Threat.ContainsIffFed | src/proxy/threat.rs:267-272 | an address is contained if and only if some fed prefix contains it |
| Threat.MergedIsCanonical | src/proxy/threat.rs:566-594 | merged vectors are sorted with at least one address between neighbours |
| Threat.CanonicalIsUnique | src/proxy/threat.rs:566-594 | two canonical vectors with the same addresses are equal |
| Threat.SameCoverageSameVectors | src/proxy/threat.rs:481-628 | two feeds that cover the same addresses produce identical vectors, whatever their order, duplication or splitting |
| Threat.RebuildIsIdentity | src/proxy/threat.rs:481-540 | building from a snapshot's own prefixes gives the same snapshot |
| CacheCodec.CacheReader.Take | src/proxy/geo.rs:714-725 | returns the next bytes and advances past them, or fails without moving when there are too few |
| CacheCodec.CacheReader.Number | src/proxy/geo.rs:727-741 | reads a big-endian number of the given width |
| CacheCodec.CacheReader.ReadRanges | src/proxy/geo.rs:679-696 | reads exactly the counted records, or fails when there are too few bytes |
| CacheCodec.Encode | src/proxy/geo.rs:644-662 | writes the specified cache bytes |
| CacheCodec.Decode | src/proxy/geo.rs:664-702 | accepts and reads exactly what the specification does |
| CacheCodec.NumberRoundTrip | src/proxy/geo.rs:644-662 | a number that fits its width survives big-endian encoding |
| CacheCodec.DecodeInvertsEncodeIff | src/proxy/geo.rs:644-702 | a snapshot survives the cache if and only if its ranges are separated and its counts fit 32 bits |
| CacheCodec.EncodeInvertsDecode | src/proxy/geo.rs:644-702 | every accepted byte string is the encoding of what it decodes to |
| CacheCodec.AcceptedBytesArePrefixFree | src/proxy/geo.rs:664-702 | no proper prefix or extension of an accepted byte string is accepted |
| CacheCodec.WrittenBigEndian | src/proxy/geo.rs:644-662 | a number is written most significant byte first |
| CacheCodec.CacheHeader | src/proxy/geo.rs:644-650 | the cache begins with SGEO and version 1, the date in 8 bytes, and both counts in 4 bytes each, cut to 32 bits |
| CacheCodec.CacheSize | src/proxy/geo.rs:645 | the size that the encoder reserves, 22 bytes and 10 and 34 for each range, is the size of the cache |
| CacheCodec.CacheRecords | src/proxy/geo.rs:644-662 | the IPv4 records follow from byte 22, then the IPv6 records, each with start, end and country, addresses taking 4 and 16 bytes |
| CacheCodec.DecodeRecords | src/proxy/threat.rs:719-739 | reads the counted prefix records and rejects a bad family or length |
| CacheCodec.DecodeThreat | src/proxy/threat.rs:700-743 | accepts exactly caches of the right magic, version and length, and rebuilds their snapshot |
| CacheCodec.ThreatAcceptedIff | src/proxy/threat.rs:700-743 | byte by byte, accepts exactly STHR, version 1, the length that the count calls for and records of a known family with a prefix it allows, and rebuilds the snapshot from them, keeping the lowest 32 bits of an IPv4 address |
| CacheCodec.ThreatLayout | src/proxy/threat.rs:677-698 | the bytes written: magic, version, date, count cut to 32 bits, and 18 bytes for each prefix with its family, length and address |
| CacheCodec.ThreatCacheRoundTripIff | src/proxy/threat.rs:677-743 | decoding the cache of a built threat snapshot gives that snapshot again if and only if it has fewer than 2^32 prefixes |
| TokenBucket.SecurityBuckets.AllowBucket | src/proxy/server.rs:3579-3589 | the decision and the key's new bucket; other keys are unchanged, a policy without rate or burst always allows and changes nothing, and a clock that went back refills nothing |
| TokenBucket.SecurityBuckets.PruneExpired | src/proxy/server.rs:3682-3689 | key by key, drops exactly the buckets idle for more than ten minutes and keeps the others unchanged |
| TokenBucket.LevelIsLeastHeadroom | src/proxy/server.rs:3907-3926 | the token level is the smallest headroom of any window that ends at the request |
| TokenBucket.AllowedIffEveryWindowConforms | src/proxy/server.rs:3907-3926 | a request is allowed if and only if it keeps every window ending with it within burst + rate * length |
| TokenBucket.WindowBound | src/proxy/server.rs:3907-3926 | no window of length T allows more than burst + rate * T requests |
| TokenBucket.NeverRefusedIffConforming | src/proxy/server.rs:3907-3926 | a stream is never refused if and only if every window of it is within burst + rate * T |
| BucketPruning.AgreementGivesSameAnswers | src/proxy/server.rs:3579-3589 | a pruned and an unpruned bucket map that agree give the same answers to every further trace |
| BucketPruning.PruningIsSeen | src/proxy/server.rs:3682-3689 | for a policy with burst of a token or more and above 600 * rate, a concrete trace whose answers pruning changes |
| BucketPruning.PruningUnobservableIff | src/proxy/server.rs:3682-3689 | pruning changes no answer of any trace if and only if every limiting policy has burst below 1 or at most 600 * rate |
| BucketPruning.PerMinuteBucketsAreForgettable | src/proxy/server.rs:3553 | every per-minute bucket meets that condition |
| BucketPruning.EachKeyOnItsOwn | src/proxy/server.rs:3579-3589 | however requests of many keys are interleaved, each is decided by those of its own key, as the window theorems say, and always allowed under a policy without a limit |
| KernelBucket.RateBuckets.CheckBucketRateLimit | bpf/sigproxy_xdp.c:278-308 | the decision and the bucket's new tokens and time, with 64-bit wraparound; without a limit a packet passes and changes nothing, a new source's first packet passes and leaves burst - 1 tokens, and other sources are unchanged |
| KernelBucket.Account | bpf/sigproxy_xdp.c:293-307 | packets passed in a window and tokens left are paid for by the burst, less a token if a fraction was under way, and by what was earned since the window opened |
| KernelBucket.NeverMoreThanBurstPlusRate | bpf/sigproxy_xdp.c:278-308 | packets passed since a source's first packet, which creates its bucket, never exceed burst + elapsed * pps / 10^9, and tokens never exceed burst |
| KernelBucket.WindowBound | bpf/sigproxy_xdp.c:278-308 | in every window, whenever it opens in the bucket's life, packets passed never exceed burst + length * pps / 10^9, wraparound included |
| KernelBucket.BurstPassesAtOnce | bpf/sigproxy_xdp.c:278-308 | of packets that arrive at one instant from a new source exactly the first burst pass |
| KernelBucket.OnlySpendingCosts | bpf/sigproxy_xdp.c:293-307 | no packet costs more than the one token it spends |
| KernelBucket.PassesIff | bpf/sigproxy_xdp.c:293-307 | a packet passes if and only if a token is left or the wrapped product since the last update is worth one |
| KernelBucket.PacedPacketPasses | bpf/sigproxy_xdp.c:293-307 | a packet at least one token's time after the previous one passes, whatever the bucket's age and level, unless the product over that gap is within one token of a multiple of 2^64 |
| KernelBucket.IdleProductWrapsToZero | bpf/sigproxy_xdp.c:294-304 | the concrete gap, over eight seconds at 2^31 packets a second, after which a packet is dropped because the product wraps to zero |
| HeaderList.SplitFirstHeaderValue | src/sip/message.rs:464-494 | the loop splits at the first comma outside quotes and angle brackets, or reports an unclosed quote; `HeaderGrammar.SplitIsGrammar` says where that is without the scanner |
| HeaderGrammar.ClosedIffElement | src/sip/message.rs:464-494 | the scanner ends where it began, without having split, exactly on a sequence of plain characters, quoted strings with escapes, and balanced angle groups that may hold commas and quoted strings |
| HeaderGrammar.SplitIsGrammar | src/sip/message.rs:464-494 | a value is split into a first part and a rest exactly if the first part is such a sequence and a comma joins them, is one value exactly if it is such a sequence in which angle groups may still be open, and is an error exactly if it is one that ends inside a quoted string |
| HeaderGrammar.PopEditsInPlace | src/sip/message.rs:120-144 | a pop takes the part before the comma and leaves what follows, trimmed and under the given name, in the same place; a line without a comma to split it goes as a whole, and an unclosed quote is an error |
| HeaderGrammar.CommasInside | src/sip/message.rs:464-494 | commas inside angle brackets or quotes do not split |
| HeaderList.TrimIsMiddle | src/sip/message.rs:120-160 | a trimmed value is the part of the text between its leading and trailing spaces |
| HeaderList.SameNameIff | src/sip/message.rs:120-135 | header names are the same if they differ only in the case of ASCII letters |
| HeaderList.SipMessage.Find | src/sip/message.rs:120-135 | the first header of the name, ignoring case, or none |
| HeaderList.SipMessage.PopTopHeaderValue | src/sip/message.rs:120-144 | removes the first value of the first header of that name; on malformed values changes nothing |
| HeaderList.SipMessage.TopHeaderValue | src/sip/message.rs:146-160 | the value that the next pop would return |
| HeaderList.SipMessage.PrependVia | src/sip/message.rs:191-209 | the new Via becomes the first header, and popping the top Via gives it back and restores the headers |
| HeaderList.SipMessage.PopOwnRouteHeaders | src/proxy/server.rs:2080-2096 | the loop terminates on every message, having popped own routes until another one, none or a malformed one |
| HeaderList.PopAt | src/sip/message.rs:120-144 | a pop edits the first header of the name in place and no other |
| HeaderList.SplitJoined | src/sip/message.rs:464-494 | an element with closed quotes and brackets is split off exactly at the comma that joins it |
| HeaderList.PopReturnsFirst | src/sip/message.rs:120-144 | a pop of a well-formed list returns its first value and leaves the list of the others, whatever the spreading over lines |
| HeaderList.PopsReturnInOrder | src/sip/message.rs:88-144 | repeated pops return the values in order and then nothing, and touch no header of another name (section 7.3.1 of RFC 3261) |
| HeaderList.PrependThenPopRestores | src/sip/message.rs:88-118 | popping the Via that was just prepended restores all headers (section 16.7 of RFC 3261) |
| HeaderList.OwnPrefixIsRemoved | src/proxy/server.rs:2080-2096 | exactly the longest prefix of own routes is removed (section 16.4 of RFC 3261) |
| HeaderList.RouteLoopStops | src/proxy/server.rs:2080-2096 | on every message, well-formed or not, the loop pops own routes and stops exactly at another one, at none, or at an unreadable one, which alone is a failure |
| HeaderList.PopShrinks | src/proxy/server.rs:2086-2094 | a successful pop of a present header makes the list smaller, so the loop ends |
| UdpTransactions.ShardLimit | src/proxy/server.rs:1047-1053 | the least positive limit with which 64 shards hold the configured number of entries |
| UdpTransactions.EnforceShardLimit | src/proxy/server.rs:5030-5044 | evicts exactly as many entries as exceed the limit, none newer than one it keeps |
| UdpTransactions.Transactions.LookupClientTransaction | src/proxy/server.rs:1004-1009 | drops the shard's expired entries and returns the key's entry |
| UdpTransactions.Transactions.RememberClientTransaction | src/proxy/server.rs:1011-1031 | inserts a fresh entry and evicts the oldest over the limit |
| UdpTransactions.Transactions.RemoveClientTransaction | src/proxy/server.rs:1043-1045 | removes exactly that key |
| UdpTransactions.Transactions.ForwardUdp | src/proxy/server.rs:1625-1726 | replay, absorb, reject, forward or roll back after a failed send, with the resulting tables and the evictions of the oldest entries |
| UdpTransactions.Transactions.HandleUdpResponse | src/proxy/server.rs:1490-1562 | drops an unknown branch and neither stores nor relays a response that cannot be rewritten; otherwise relays, stores a final response and closes the branch if it is not an INVITE |
| UdpTransactions.HitIffAlive | src/proxy/server.rs:1633-1662 | a request is answered from the cache if and only if its entry is there and unexpired; otherwise it is rejected, forwarded or failed as its preparation and its send decide |
| UdpTransactions.BranchIsOpenIff | src/proxy/server.rs:1490-1562 | in every run a branch is open exactly while it belongs to a request: one forwarded on it, not expired, not followed by another request on it, and not closed by a final response unless it is an INVITE; the branch's row then holds that request's peer and key |
| UdpTransactions.RelayedToRequester | src/proxy/server.rs:1490-1562 | every response on an open branch is relayed to the client whose request was forwarded on it, and a branch outlives its final response exactly for an INVITE |
| UdpTransactions.InsertedFresh | src/proxy/server.rs:1011-1031 | a forwarded request's entry is there afterwards, without a response, unless its shard is full of entries as new; a failed send leaves none |
| UdpTransactions.LostOnlyByEviction | src/proxy/server.rs:5030-5044 | an unexpired entry is lost only when the insertion of another key into its shard evicts it |
| UdpTransactions.EntryWasInserted | src/proxy/server.rs:1011-1031 | an entry that is there was inserted by a forwarded request and has been there since |
| UdpTransactions.EntryHoldsLatestFinal | src/proxy/server.rs:1033-1041 | while it lives, an entry holds exactly the latest final response relayed for its key, its age counts from then, and its target stays; relayed for a key means relayed on a branch that belongs to a request with that key, told from the steps alone |
| UdpTransactions.RetransmissionIsAbsorbed | src/proxy/server.rs:1625-1662 | every retransmission in an entry's lifetime gets the latest final response byte for byte, or is absorbed while there is none (sections 17.2.1 and 17.2.2 of RFC 3261) |
| UdpTransactions.ExactlyOneSend | src/proxy/server.rs:1625-1726 | in an entry's lifetime its key causes exactly one upstream send |
| UdpTransactions.ShardsStayWithinLimit | src/proxy/server.rs:1011-1053 | in every run no shard ever exceeds its limit |
| UdpTransactions.OnlyOldestAreEvicted | src/proxy/server.rs:5030-5044 | an unexpired entry displaced by an insertion is no newer than any entry that stays in its shard |
| RoundRobin.UpstreamGroup.Select | src/proxy/server.rs:4397-4411 | fails exactly for an empty group; otherwise the next healthy server in circular order, or plain round-robin if none is, with the counter's new value |
| RoundRobin.PicksFollowLap | src/proxy/server.rs:4397-4411 | consecutive selections pick the healthy servers in counter order, skipping none |
| RoundRobin.LapSize | src/proxy/server.rs:4402-4407 | one lap of the counter meets each healthy server exactly once and no other |
| RoundRobin.HealthySelectionsAreFair | src/proxy/server.rs:4397-4411 | any h consecutive selections, h being the number of healthy servers, pick each of them exactly once in circular order |
| RoundRobin.FallbacksAreFair | src/proxy/server.rs:4409-4410 | with no healthy server, any n consecutive fallbacks pick each of the n servers exactly once in circular order |
| Affinity.AffinityTable.constructor | src/proxy/affinity.rs:60-66 | an empty table of 64 shards |
| Affinity.AffinityTable.Lookup | src/proxy/affinity.rs:68-87 | the first of the message's keys that is bound and unexpired in the one flat table; drops the expired bindings of exactly the shards of the keys up to that one |
| Affinity.AffinityTable.LookupKey | src/proxy/affinity.rs:89-97 | the flat table's answer for the key |
| Affinity.AffinityTable.Remember | src/proxy/affinity.rs:99-132 | binds all the message's keys until the configured lifetime ends, and returns their snapshots |
| Affinity.AffinityTable.RememberKey | src/proxy/affinity.rs:134-158 | binds the key unless the table is disabled or the lifetime is zero |
| Affinity.AffinityTable.Snapshot | src/proxy/affinity.rs:160-184 | lists each unexpired binding once and drops the others |
| Affinity.AffinityTable.InstallSnapshot | src/proxy/affinity.rs:186-205 | the table becomes the list's unexpired entries, the last one of a key winning |
| Affinity.AffinityTable.UpsertSnapshotBindings | src/proxy/affinity.rs:207-232 | applies the list in order; an expired entry removes the binding |
| Affinity.AffinityTable.Insert | src/proxy/affinity.rs:120-130 | binds the key in its own shard, as one section of the concurrent system, and counts a new key once |
| Affinity.AffinityTable.Take | src/proxy/affinity.rs:234-241 | the locked part of a removal, after which the counter is one too high if the key was bound |
| Affinity.AffinityTable.RemoveKey | src/proxy/affinity.rs:234-245 | removes exactly that key, and the counter never passes below zero |
| Affinity.AffinityTable.ActiveLen | src/proxy/affinity.rs:247-255 | drops the expired bindings and counts the others |
| Affinity.AffinityTable.BindingLen | src/proxy/affinity.rs:257-259 | the counter is the number of stored bindings |
| Affinity.AffinityTable.ReplaceAll | src/proxy/affinity.rs:296-307 | installs the shards and sets the counter to their total |
| Affinity.AffinityTable.PruneShard | src/proxy/affinity.rs:394-398 | drops exactly the shard's expired bindings, and the counter never passes below zero |
| Affinity.OneTable | src/proxy/affinity.rs:284-290 | given shards are the spreading of only one table |
| Affinity.TotalIsSize | src/proxy/affinity.rs:296-307 | the shards' sizes add up to the number of distinct keys |
| Affinity.InstallRestoresIff | src/proxy/affinity.rs:160-205 | installing a snapshot restores exactly the unexpired bindings if and only if none lives 2^64 ms or more |
| Affinity.InstalledIsLast | src/proxy/affinity.rs:186-205 | of a list with repeated keys, installing takes the last unexpired entry of each |
| Affinity.UpsertedIsLast | src/proxy/affinity.rs:207-232 | upserting leaves a key with its last entry, or with none if that has expired, and other keys as they were |
| Affinity.FittedExactlyIff | src/proxy/affinity.rs:192-205 | an installed lifetime is the given one modulo 2^64 milliseconds, and is the same if and only if that was shorter |
| Affinity.RunInvariant | src/proxy/affinity.rs:268-322 | after any interleaving of locked sections each key is only in its own shard, and the counter is the total, plus removals not yet subtracted, less those overtaken by the last installation |
| Affinity.LookupsAgree | src/proxy/affinity.rs:68-97 | after any interleaving, a lookup no earlier than the last sweep answers as one flat expiring table, and an earlier one never answers anything else than that or nothing |
| Affinity.CounterIsExactIff | src/proxy/affinity.rs:234-245 | at rest the counter is the number of bindings if and only if no removal was between its two parts at the last installation |
| Affinity.CounterUnderflowsIff | src/proxy/affinity.rs:309-317 | the counter can pass below zero before the next installation if and only if such a removal was overtaken |
| Affinity.RemovalOvertakenByInstall | src/proxy/affinity.rs:234-245 | a concrete interleaving that does this |

## Left out

Assumptions of the models:

- Node restart, which resets the epoch, equal node ids, and wraparound of 64-bit epochs.
- A clock that goes back or differs between tables: all times are readings of one non-decreasing clock, and expiry in memory and in the database is compared on it. In `Affinity` the sweeps of concurrent callers may use any times.
- Failed background batches, more than one direction of replication, and more than one log.
- Background writes reach memory and the log in one order, the order in which the primary queued them; a required write is logged while none of them waits for the log, and the next write of its slot starts after it has reached memory.
- Replication.ReplicaConverges: assumes that no accepted event is an expired upsert over a live row of the follower. For a follower in step with the history this is exact (`ReplayIsFaithfulIff`); during the overlap of a snapshot it is sufficient only, since a later event may repair the row. It also assumes that no snapshot row is read behind the snapshot's number, which `NumbersReadAtRestAreCurrent` reduces to the moment the number is read.
- Floating-point rounding: the user-space buckets use real numbers, and their times do not decrease along a stream.
- TokenBucket.SecurityBuckets.AllowBucket: the per-key lock is one step; the clock is read before the lock in the source, so under contention two requests may be handled in the opposite order of their readings.
- Rate and burst of a key stay the same along a stream or trace, in both bucket theories.
- KernelBucket.RateBuckets.CheckBucketRateLimit: does not model processors racing on one bucket, nor eviction when the map is full.
- RoundRobin.UpstreamGroup.Select: does not model concurrent callers interleaving their counter increments, health that changes during a selection, or the counter wrapping at 64 bits.
- A run of the UDP tables starts with both empty, as the proxy does. Its steps are sequential: a request's lookup, insertion and send are one step, as is the handling of a response.
- UdpTransactions.EntryHoldsLatestFinal: a final response belongs to the key its branch row names when it is relayed. A CANCEL or ACK reuses the INVITE's branch and overwrites that row, after which responses on it belong to the newer request's key.
- The branch table's shards are one map: every access prunes the branch it looks at, so the split is not seen.

Forms that differ from the source:

- The IPv4 and IPv6 copies of the range code are one model with the address width as a parameter, and the threat merge is the same normalisation with a single tag.
- Address masks are written as arithmetic on unbounded numbers; `Bits.BitsAreDivision` and `GeoIndex.CidrIsBlock` tie them to division by powers of two.
- Library sorts are insertion sorts specified by order and elements; the in-memory order of equal keys is not modelled.
- Contacts and affinity bindings are rows of one table in `EventStore` and `Replication`, told apart by their slot.
- Table scans and SQL statements are functions on maps and sequences; text comparison of decimal expiry times in SQL and JSON columns are not modelled.
- Affinity bindings expire at an absolute millisecond; sub-millisecond remainders, and the panic of the platform clock on an unrepresentable instant, are not modelled.
- CacheCodec.Decode: the source does not check that a range's start is at most its end, and neither does the model; ranges that were built satisfy it (`GeoIndex.BuiltSnapshotIsSearchable`), and a stored cache is trusted to have been built.
- CacheCodec.ThreatCacheRoundTripIff: assumes a 64-bit date, which is the type of the source's field.
- The recognition of a route as the proxy's own, the hash of a key, the outcome of a hook, a transaction or a send, and the keys of a message are parameters.
- HeaderList.SipMessage.PrependVia: takes the finished Via text; its rendering by the SIP library is not part of this model. Popping the top Via is the same operation as popping the top value of the header named Via.
- UdpTransactions.Transactions.HandleUdpResponse: takes the relayed bytes, or that there are none because a header cannot be rewritten, as given; a failing send to the client leaves the tables as a relay does and is not told apart from it.
- UdpTransactions.Transactions.ForwardUdp: does not model TCP targets, whose responses arrive on a connection, nor the content of the provisional 100 response; a failure to send it counts as a request that was not prepared.
- GeoIndex.AppendRanges: takes parsed lines with their country code; comment and blank lines, text parsing and country codes are not modelled.
- GeoIndex.FetchGeoSnapshot: takes all lines as loaded; downloads, partial loads that skip a failing country, and the failure when none could be loaded are not modelled.
- GeoIndex.LongestMatch: the capacity of the kernel map is not modelled.

Not modelled at all:

- Sockets, HTTP endpoints, request timeouts, tasks, worker queues, hooks as processes, feed downloads with partial results and retries.
- Snapshot checksums: a snapshot is installed as it was sent.
- TCP and TLS upstreams, bridging UDP to TCP, the provisional 100 response, and metrics.
- Configuration, presets, route specificity, advertised addresses, health probes and their thresholds.
- Geo and threat policy decisions once the country or the hit is known.
