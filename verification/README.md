# Chronos, modelled and proved

Chronos hands out timestamps that are unique and, per timeline, increasing. This
project models the stateful core of that service in Dafny and proves what it is
for. `dafny verify dfyconfig.toml` checks everything.

| module | what it models |
|---|---|
| `Timestamps`, `Radix` | the bit layout of a 64-bit timestamp, its codec, and the next cursor past a floor |
| `Generators`, `Allocation` | the lock-free index: load, compare-exchange and `init_after_floor` as separate steps of any number of threads; the allocation call and its range-splitting loop |
| `Handoff`, `LeaseProtocol` | the recovery floor, and the protocol by which worker processes share one generator id through a compare-exchanged record |
| `Lanes`, `LaneProgress` | the per-timeline lane table: one step per access of the map, the slot counter, the idle queue, the reference counts and the lifecycle locks |
| `TimelineCache` | the bounded runtime cache with its lazily updated eviction heap |
| `ByteStrings`, `MetadataKeys`, `EtcdKeys` | byte order, the request and cleanup keys, etcd range ends |
| `RequestRecords`, `RequestRuns` | request records, legacy migration, cleanup rows, pruning |
| `RevisionedMap`, `TimelineRecords`, `Pages` | revisions and batches, the cached listing, filtered pages, published route updates |
| `Failover` | the owner-targeted failover pass with its remembered cursors |

The main results, each for every run or every input:

- no timestamp is issued twice, by threads of one generator or by workers sharing
  a generator id, and a successor issues only past everything its predecessors
  ever issue;
- an allocation is served if and only if clock, word, borrowing allowance and bound
  admit it, and then from the first position there is;
- two requests for one timeline never allocate at the same time, slots are
  accounted for exactly, no idle lane is lost, and a request is refused only when
  every slot is taken;
- the cache evicts exactly when it can, the least recently ticked eligible entry,
  and stays within its limits under any churn;
- a request record is one compare-and-set register per (timeline, request id)
  across its migration, cleanup rows match completed records one to one, and a
  prune removes exactly as many as it may, oldest first;
- a batch is all or nothing, each revision is consumed once, published route
  updates rebuild the stored routes, and walking filtered pages reads each match
  once;
- a finished failover sweep attempted each timeline that stayed put exactly once, and
  a pass makes exactly the attempts its pages, its batch and the outcomes call for.

Where a promise holds only under a condition, the condition is proved to be the
exact one:

- `UnboundedSafeIffHarmless`: an allocation that passes no issued upper bound, as
  the service does when none could be computed or the lease has just run out,
  leaves the workers of a generator id safe if and only if its interval lies under
  the persisted floor, apart from everything issued, out of every other worker's
  reach and behind every holder of the current lease. An allocation that passes a
  bound always satisfies this (`BoundedIsHarmless`), so runs that always pass one
  are safe (`NoTimestampTwiceWhenBounded`). `UnboundedRunCollides` gives, for every
  layout, id and encodable position, a seven-step run in which two workers return
  that position: one checks its lease, the other takes over, both allocate.
- `HandoffOrdersIff`: the timestamps a successor returns exceed a predecessor's over
  all their runs if and only if no position that the predecessor's bound allows
  reaches the successor's first one. With one id that means a bound below the
  successor's first position (`SameIdOverlapIff`, `CapExact`).
- `ReachableRequestDecided`: in every reachable state, a request that runs while nobody
  else is inside a lifecycle lock is leased the lane of its key if and only if the key
  is mapped, a slot is free, or an idle lane is among the queued keys it may pop.
- `WalksWholeIffSpaced`, `PagesContinueIffSpaced`: walking timeline pages by cursor,
  with every page size and every filter, ends and reads each match once in order if
  and only if every stored route but the last names its key or something between its
  key and the next. `FallingBackNeverEnds` is a way to fail: a route just before its
  own key hands the scan the same page for ever.
- `TokensDecideIffUnambiguous`, `NeverTwinsIffUnambiguous`: marked revisions of
  legacy request records can be trusted, for deletes and for exchanges, and a pair
  never has two records, for exactly the pairs that hold no slash.
- `RevisionBitExhausted`: once a request revision reaches bit 63 no exchange can
  name the record again and no delete can remove it; below it every loaded revision
  works.
- `CreateRebuiltIff`, `ExchangeRebuiltIff`, `BatchRebuiltIff`: subscribers stay in
  step exactly when every route stored under a key names that key.

And where the code does something its names do not suggest:

- `TakeoverBoundUnusable`: a takeover starts its generator past the bound it has
  just written, so nothing can be allocated under that bound before a refresh.
- `DeferredIsPassedOver`: a flag in the failover pass is named "retry before
  cursor advance", but the code stores the deferred key as the cursor, so the timeline
  is next offered in the following sweep. The model follows the code.

## Model

| member | source | states |
|---|---|---|
| `Radix.DivIsQuotient` | src/timestamp.rs:241-251 | the quotient and remainder that stand for the shift and the mask are the usual ones |
| `Timestamps.TimestampLayout.Encode` | src/timestamp.rs:219-239 | encoding succeeds exactly for a valid layout and a triple inside its widths; otherwise the error names the first part out of range |
| `Timestamps.DecodeEncode` | src/timestamp.rs:219-251 | decoding an encoded triple gives the triple back, for every layout and triple that encode accepts |
| `Timestamps.EncodeDecode` | src/timestamp.rs:219-251 | encoding the decoded parts of any 64-bit value gives the value back, for every valid layout |
| `Timestamps.WordWidth` | src/timestamp.rs:111-154 | the widths that validation accepts fill the 64-bit word exactly |
| `Timestamps.ValidIff` | src/timestamp.rs:111-154 | validation accepts exactly format version 1 with 1 to 31 sequence bits and at most 13 generator bits, at most 32 together, physical bits filling the word, and a last millisecond that is a 64-bit Unix time |
| `Timestamps.DecodeLogical` | src/timestamp.rs:241-251 | the logical field is the low part of the word, generator over sequence, and the word is the physical part over it |
| `Timestamps.ComposeOrder` | src/timestamp.rs:219-239 | timestamps compare exactly as their (physical, generator, sequence) triples |
| `Timestamps.NextCursorInRange` | src/cursor.rs:23-62 | on a 64-bit floor the next cursor never fails and lies at most one millisecond past the layout's end |
| `Timestamps.NextCursorIsLeast` | src/cursor.rs:23-62 | a position of the target generator exceeds the floor exactly when it is at or after the next cursor |
| `Generators.AttemptShape` | src/runtime/generator_lease.rs:105-143 | an accepted attempt starts at or after the loaded index and the floor index and spans exactly the count asked for, without overflow |
| `Generators.AttemptExact` | src/runtime/generator_lease.rs:105-157 | an attempt is accepted if and only if the clock did not run back too far, the interval fits the word, its last position lies within the borrowing allowance and at or below the bound; it then takes the first position past index, clock reading and floor |
| `Generators.AttemptErrors` | src/runtime/generator_lease.rs:105-155 | every refusal names its cause with the values that show it: the rewind, the requested and the allowed millisecond, the end timestamp and the bound |
| `Generators.AttemptWindow` | src/runtime/generator_lease.rs:105-143 | an accepted attempt starts no earlier than the clock reading and ends within the larger of the two allowances past it |
| `Generators.AttemptCapped` | src/runtime/generator_lease.rs:145-155 | an accepted attempt under an issued upper bound ends at or below the bound |
| `Generators.AttemptEncodable` | src/runtime/generator_lease.rs:145-187 | under a bound an accepted attempt can always be encoded, so its ranges are always returned |
| `Generators.ReachesUpTo` | src/runtime/generator_lease.rs:105-157 | every encodable position at or after the loaded index can be taken by one attempt, unless the bound lies below it |
| `Generators.PastFloor` | src/runtime/generator_lease.rs:93-103 | every position from the floor's index on has a timestamp past the floor |
| `Generators.FloorIndexExact` | src/runtime/generator_lease.rs:40-103 | a floor's index is the least one whose timestamp exceeds the floor; it saturates, or initialisation fails, exactly when no 64-bit index does |
| `Generators.NextKeepsInv` | src/runtime/generator_lease.rs:40-198 | each load, exchange or floor step of any thread keeps committed intervals ordered below the shared index, which never moves back |
| `Generators.BeginExact` | src/runtime/generator_lease.rs:81-103 | a call by a free thread always gets to its first load, past the index of its floor; no floor makes it fail |
| `Generators.LoadExact` | src/runtime/generator_lease.rs:105-157 | in the threaded machine a load goes on to the exchange if and only if the request is admissible at the index it read |
| `Generators.ExchangeExact` | src/runtime/generator_lease.rs:157-197 | an exchange commits exactly the planned interval if and only if nobody moved the index since the load; a loser loads again, up to 32 losses |
| `Generators.Run` | src/runtime/generator_lease.rs:105-197 | over any list of steps the index only grows and no commit is undone |
| `Generators.NoTimestampTwice` | src/runtime/generator_lease.rs:105-197 | in every interleaving, committed intervals are disjoint and increasing in commit order and no timestamp is issued twice |
| `Generators.IssueRateBounded` | src/runtime/generator_lease.rs:105-157 | over any run with clock readings in a window, at most one full millisecond of sequence numbers per millisecond of the window plus slack is issued, and no physical part passes the window plus slack |
| `Allocation.TakeRange` | src/runtime/generator_lease.rs:164-187 | one turn of the range loop takes the rest of one millisecond, listing its timestamps in order |
| `Allocation.SplitRanges` | src/runtime/generator_lease.rs:157-187 | the ranges list exactly the encodings of the committed interval, each inside one millisecond, one range per millisecond touched; it fails exactly when the last position cannot be encoded |
| `Allocation.Generator.InitAfterFloor` | src/runtime/generator_lease.rs:40-53 | afterwards no position still to be handed out is at or below the floor; a failure changes nothing |
| `Allocation.Generator.AllocateAfter` | src/runtime/generator_lease.rs:81-198 | under interference between load and exchange, the ranges returned are those of the first interval past the floor, the clock reading and an index loaded meanwhile, for a request admissible there, and no later call can take it; contention is reported only after 32 lost exchanges, and an error only when the floor overflows, the request was not admissible at some index held meanwhile, or an unbounded interval cannot be encoded |
| `Allocation.InitPassesFloor` | src/runtime/generator_lease.rs:40-53 | every position from the initialised index on lies past the floor |
| `Allocation.ChainIncreases` | src/runtime/generator_lease.rs:93-178 | calls on arbitrary generators with arbitrary clocks, each passing the previous end as floor, concatenate to strictly increasing timestamps |
| `Handoff.RecoveryFloor` | src/planning.rs:105-115 | the floor is one of the record's two values and no smaller than either |
| `Handoff.CappedIssue` | src/runtime/generator_lease.rs:145-155 | a generator whose requests, those under way included, carry a cap never issues past it, in any interleaving |
| `Handoff.FlooredIssue` | src/runtime/generator_lease.rs:40-53 | a generator, new or already in use, that is initialised past a floor issues from then on only past it |
| `Handoff.HandoffOrders` | src/planning.rs:105-115 | with the old generator capped below the record's bound and the new one, possibly in use before, started past the record's floor, everything the new one issues from then on exceeds everything the old one ever issues, even if the old one keeps running |
| `Handoff.ChainOrders` | src/planning.rs:105-115 | the same between any two tenures of a chain of any length whose floors never decrease |
| `Handoff.CommitsPastFloor` | src/runtime/generator_lease.rs:40-53 | once a generator already in use is initialised past a floor, every later commit lies at or past the floor's index, those of callers already under way included |
| `Handoff.CapExact` | src/runtime/generator_lease.rs:145-155 | a request under a bound can take a position or one past it if and only if the bound is absent or at least that position's timestamp |
| `Handoff.HandoffOrdersIff` | src/runtime/generator_lease.rs:145-155 | for any two generators, over all runs of both, the returned timestamps are ordered if and only if no encodable position the predecessor's bound allows reaches the successor's first |
| `Handoff.SameIdOverlapIff` | src/runtime/generator_lease.rs:145-155 | with one id that condition is a bound below the successor's first position |
| `LeaseProtocol.FloorMonotone` | src/service/lease.rs:64-263 | no write by any worker, however stale its lease, lowers the record's recovery floor |
| `LeaseProtocol.CreateWrites` | src/service/lease.rs:64-263 | the worker that creates the record holds the current lease and may allocate up to the bound it wrote |
| `LeaseProtocol.TakeOverWrites` | src/service/lease.rs:64-263 | a takeover keeps the old floor as the last issued timestamp, writes its own bound, one revision up, and ends every current lease |
| `LeaseProtocol.AdoptWaits` | src/service/lease.rs:64-263 | a worker that finds its own record initialises its generator from it and changes nothing else before that |
| `LeaseProtocol.InitialiseHolds` | src/service/lease.rs:64-263 | initialising moves the generator past the record's floor and makes the worker holder of that record's lease |
| `LeaseProtocol.InitialiseFails` | src/service/lease.rs:64-263 | when no 64-bit index lies past the floor, the worker gets no lease and nothing else changes |
| `LeaseProtocol.RefreshWrites` | src/service/lease.rs:369-455 | a refresh by a holder persists what it has seen issued, raises the bound to the larger one exactly when it extends, and leaves its writer the one holder |
| `LeaseProtocol.PersistFloorWrites` | src/service/facade.rs:465-500 | the floor persisted at shutdown covers everything observed, is the old floor or the observed value, and leaves the bound alone; nothing is written exactly when the record already covers it |
| `LeaseProtocol.AllocateIssues` | src/service/allocation/serve.rs:301-316 | an allocation issues exactly the count asked for, from the first position there is, if and only if its bound is one the worker was granted, or none after a lease, and the generator admits the request |
| `LeaseProtocol.BoundedIsHarmless` | src/service/lease.rs:266-332 | an allocation under any bound the worker was ever granted takes an interval below the floor that no other worker has issued, can issue, or will get to issue |
| `LeaseProtocol.NextKeepsInv` | src/service/lease.rs:64-263 | every start, takeover, adoption, refresh, delayed initialisation, floor write and allocation, an unbounded one if harmless, keeps what different workers may still issue apart |
| `LeaseProtocol.NoTimestampTwiceAcrossWorkers` | src/service/lease.rs:64-455 | in every run of any number of workers sharing a generator id whose unbounded allocations are harmless, no timestamp is returned twice |
| `LeaseProtocol.NoTimestampTwiceWhenBounded` | src/service/lease.rs:64-455 | in every run whose allocations all pass a bound, no timestamp is returned twice |
| `LeaseProtocol.FloorCoversRun` | src/service/facade.rs:465-500 | along the same runs everything ever returned stays at or below the persisted recovery floor, which never decreases |
| `LeaseProtocol.UnboundedSafeIffHarmless` | src/service/allocation/serve.rs:301-316 | in every state those runs reach, an allocation without a bound leaves all bounded continuations free of duplicates if and only if its interval is harmless |
| `LeaseProtocol.UnboundedRunCollides` | src/service/allocation/serve.rs:404-466 | for every encodable position some run without computed bounds returns it twice: a worker whose lease was checked before a takeover allocates after it, with both clocks in the position's own millisecond |
| `LeaseProtocol.TakeoverBoundUnusable` | src/service/lease.rs:64-263 | after a takeover no request under the bound just written can succeed before a refresh |
| `Lanes.NextKeepsInv` | src/timeline_proxy.rs:199-324 | every single access of shared state by any thread keeps the lane invariant |
| `Lanes.LeasesShareOneLane` | src/timeline_proxy.rs:199-324 | in every reachable state two requests holding leases of one timeline hold the one lane its key maps to |
| `Lanes.OneInFlightPerTimeline` | src/timeline_proxy.rs:80-120 | at most one allocation per timeline is in flight |
| `Lanes.SlotsAccounted` | src/timeline_proxy.rs:218-313 | lanes never exceed slots, slots never exceed the limit, and the difference is exactly the requests between reserving or removing and inserting or releasing |
| `Lanes.NoIdleLaneLost` | src/timeline_proxy.rs:43-54 | every mapped lane without references is queued, about to be queued, or in the hands of a pruner that has not decided |
| `LaneProgress.NextOwners` | src/timeline_proxy.rs:199-313 | every locked lifecycle lock is held by a thread that is inside it, after any step |
| `LaneProgress.RefusedOnlyWhenFull` | src/timeline_proxy.rs:218-261 | a request is refused only while every slot is taken |
| `LaneProgress.PrunesOnlyWhenFull` | src/timeline_proxy.rs:218-275 | no request goes for an idle lane while a slot is free |
| `LaneProgress.AnyPointLeases` | src/timeline_proxy.rs:199-261 | with a slot free, a request left alone at any point of its way gets the lane of its key |
| `LaneProgress.LoneRequestDecided` | src/timeline_proxy.rs:199-313 | a request left alone is leased the lane of its key if and only if the key is mapped, a slot is free, or one of the queued keys it may pop has an idle lane; otherwise it is refused |
| `LaneProgress.ReachableRequestDecided` | src/timeline_proxy.rs:199-313 | the same in every reachable state in which nobody else is inside a lifecycle lock |
| `LaneProgress.LeaseRunsOut` | src/timeline_proxy.rs:88-120 | a leased request is in flight as soon as its lane's mutex is free |
| `LaneProgress.FlightEnds` | src/timeline_proxy.rs:88-120 | the end of an allocation frees the mutex and leads to the drop of the lease |
| `LaneProgress.AbandonDrops` | src/timeline_proxy.rs:139-155 | a leased request that is cancelled while it waits for the mutex drops its lease |
| `LaneProgress.DropQueues` | src/timeline_proxy.rs:43-54 | dropping a lease gives back one reference, and the key is queued as idle exactly when it was the last |
| `TimelineCache.OneCurrentPerKey` | src/runtime/cache_eviction.rs:241-267 | the heap holds exactly one current-generation candidate per cached timeline |
| `TimelineCache.EvictionPass` | src/runtime/cache_eviction.rs:308-346 | a pass evicts if and only if some entry is idle with an up-to-date candidate, choosing the least such tick and among equals the oldest generation; a failed pass re-keys every candidate and drops the stale ones |
| `TimelineCache.CompactKeepsConsistent` | src/runtime/cache_eviction.rs:269-294 | compaction keeps exactly one candidate per entry and changes nothing an eviction could see |
| `TimelineCache.TimelineCacheStore.constructor` | src/runtime/cache_eviction.rs:52-64 | a new cache is empty and consistent |
| `TimelineCache.TimelineCacheStore.TouchEntry` | src/runtime/cache_eviction.rs:223-235 | one access in sixteen records a fresh tick; that entry alone changes, and the heap is left alone |
| `TimelineCache.TimelineCacheStore.TimelineHandle` | src/runtime/cache_eviction.rs:70-82 | returns the cached handle; a hit is one access of that entry and a miss changes nothing |
| `TimelineCache.TimelineCacheStore.TimelineHandleOrInsertWith` | src/runtime/cache_eviction.rs:84-136 | returns the cached handle, as one access of that entry, or the new one under a fresh tick; fails exactly for a new key in a full cache with nothing eligible; otherwise at most the least-ticked eligible entry is given up |
| `TimelineCache.TimelineCacheStore.InsertTimeline` | src/runtime/cache_eviction.rs:138-198 | a cached key gets the new handle under a fresh tick and nothing else changes; fails exactly for a new key in a full cache with nothing eligible; otherwise at most the least-ticked eligible entry is given up |
| `TimelineCache.TimelineCacheStore.RemoveTimeline` | src/runtime/cache_eviction.rs:200-208 | removes exactly the key and keeps the heap within its bound |
| `TimelineCache.TimelineCacheStore.Clear` | src/runtime/cache_eviction.rs:210-217 | empties map, generations and heap |
| `TimelineCache.TimelineCacheStore.MaybeCompact` | src/runtime/cache_eviction.rs:269-294 | the heap ends up within its bound with the same current candidates, and is left alone while it is within it |
| `TimelineCache.TimelineCacheStore.EvictOneIdleEntry` | src/runtime/cache_eviction.rs:296-306 | evicts exactly when something is eligible, the least tick first; otherwise removes nothing and leaves every candidate up to date |
| `TimelineCache.RunAll` | src/runtime/cache_eviction.rs:84-217 | after any operations the cache is within its limit, the count is the map size and the heap is at most four candidates per live entry plus sixteen |
| `TimelineCache.RetryAfterSaturation` | src/runtime/cache_eviction.rs:296-346 | after a saturated insert, an untouched retry succeeds if and only if some entry has become idle |
| `EtcdKeys.PrefixRangeEnd` | src/metadata/etcd.rs:227-237 | the range from the prefix to the computed end selects exactly the keys that carry the prefix |
| `EtcdKeys.NextEtcdKeyAfter` | src/metadata/etcd.rs:239-243 | the keys at or after the result are exactly the keys past the given one |
| `EtcdKeys.ResumedScanSplits` | src/metadata/etcd.rs:227-243 | resuming a range scan after its last key reads the rest of the range and nothing twice |
| `MetadataKeys.EncodeComponent` | src/metadata/keys.rs:9-17 | the loop produces the two-digit hexadecimal form of every byte |
| `MetadataKeys.HexByPosition` | src/metadata/keys.rs:9-17 | digits 2i and 2i + 1 are the high and the low half of byte i, as lower-case digits |
| `MetadataKeys.HexInjective` | src/metadata/keys.rs:9-17 | equal encoded components come from equal components |
| `MetadataKeys.RequestKeyInjective` | src/metadata/keys.rs:95-104 | distinct (timeline, request id) pairs never share a request key, whatever bytes they hold |
| `MetadataKeys.LegacyAndCurrentDisjoint` | src/metadata/keys.rs:95-119 | no legacy request key is a current one |
| `MetadataKeys.RequestFormats` | src/metadata/keys.rs:95-119 | the request keys spelled out: namespace, `requests_v2/` or `requests/`, timeline, slash, request id, the current one hex-encoded |
| `MetadataKeys.UnambiguousIffOwned` | src/metadata/keys.rs:110-130 | the slash test accepts exactly the pairs whose legacy key no other pair has |
| `MetadataKeys.DecimalOrder` | src/metadata/keys.rs:132-154 | zero-padded numbers of one width order and coincide like the numbers |
| `MetadataKeys.DecimalDigit` | src/metadata/keys.rs:132-154 | padding is decimal: the digit at each place is the number's digit there, zero past its length |
| `MetadataKeys.CleanupFormats` | src/metadata/keys.rs:132-166 | the cleanup keys spelled out: `request_cleanup_v2/` or `request_cleanup/`, the padded time, slash, and the pair, hex-encoded in the current form |
| `MetadataKeys.CleanupCutoffExact` | src/metadata/keys.rs:132-154 | a cleanup row lies in the scanned range below the cutoff exactly when its record is older, for all 64-bit times |
| `MetadataKeys.CleanupOrder` | src/metadata/keys.rs:132-146 | rows that come first belong to records no younger |
| `MetadataKeys.CleanupInjective` | src/metadata/keys.rs:132-146 | a row determines time, timeline and request id |
| `MetadataKeys.LegacyCleanupOutside` | src/metadata/keys.rs:148-166 | legacy rows lie outside the scanned range |
| `RequestRecords.CreateIsRegisterCreate` | src/metadata/memory.rs:791-818 | a create succeeds exactly when the pair has no record, legacy ones included; the pair then has the record given, at revision one, and no other pair is touched |
| `RequestRecords.CompareExchangeIsRegisterCas` | src/metadata/memory.rs:820-880 | for every pair and token: an exchange with a token that a load could return succeeds exactly when a load would return it now, leaves the pair with the record given, one revision up across the move to the current key, and touches no other pair; a marked token of a pair holding a slash succeeds exactly when it hits a legacy revision under the shared key |
| `RequestRecords.CompareDeleteIsRegisterDelete` | src/metadata/memory.rs:882-922 | for every pair and token: a delete with a token that a load could return succeeds exactly when a load would return it now, clears the pair and touches no other; a marked token of a pair holding a slash never changes what the pair has |
| `RequestRecords.RevisionBitExhausted` | src/metadata/memory.rs:833-834 | a record whose revision reached bit 63 can no longer be exchanged or deleted with any token, for every pair |
| `RequestRecords.FlagIsTopBit` | src/metadata/memory.rs:833-834 | the mark is bit 63: setting it and clearing it leave the other 63 bits alone |
| `RequestRecords.TokensDecideIffUnambiguous` | src/metadata/memory.rs:891-897 | tokens decide deletes for a pair, and exchanges, if and only if the pair is unambiguous |
| `RequestRecords.PutKeepsInv` | src/metadata/memory.rs:142-172 | setting or clearing a record together with its row keeps rows and completed records in one-to-one correspondence |
| `RequestRecords.DropLegacyKeepsInv` | src/metadata/memory.rs:174-190 | dropping a legacy record and its legacy row disturbs no current row |
| `RequestRecords.RequestStore.constructor` | src/metadata/memory.rs:44-61 | a new store is empty, which is one of the states every run may start from |
| `RequestRecords.RequestStore.LoadRequestRecord` | src/metadata/memory.rs:759-789 | returns the pair's one record with its token, and fails exactly on an unsupported schema |
| `RequestRecords.RequestStore.CreateRequestRecord` | src/metadata/memory.rs:791-818 | its effect and result are those `CreateIsRegisterCreate` describes |
| `RequestRecords.RequestStore.CompareExchangeRequestRecord` | src/metadata/memory.rs:820-880 | its effect and result are those `CompareExchangeIsRegisterCas` describes |
| `RequestRecords.RequestStore.CompareDeleteRequestRecord` | src/metadata/memory.rs:882-922 | its effect and result are those `CompareDeleteIsRegisterDelete` describes |
| `RequestRecords.RequestStore.PruneIndexed` | src/metadata/memory.rs:937-971 | follows sorted rows until the limit, removing each record once even when rows are stale or repeated |
| `RequestRecords.RequestStore.SweepUnindexed` | src/metadata/memory.rs:977-1006 | removes further eligible records with every row pointing at them, and stops early only at its quota |
| `RequestRecords.RequestStore.PruneCompletedRequestRecords` | src/metadata/memory.rs:924-1007 | the two halves in order: fallback records go only when the rows are exhausted, and it stops below the limit only with nothing eligible left |
| `RequestRuns.PruneCount` | src/metadata/memory.rs:924-1007 | a prune removes only completed records older than the cutoff, exactly as many as the smaller of limit and eligible, and alters no other |
| `RequestRuns.PruneRemovesDue` | src/metadata/memory.rs:924-1007 | whatever a prune removes was completed before the cutoff, and a prune that stays below its limit leaves nothing of that kind |
| `RequestRuns.PruneOldestFirst` | src/metadata/memory.rs:937-971 | no current record is removed while a strictly older eligible one is kept |
| `RequestRuns.PruneLegacyLast` | src/metadata/memory.rs:973-1005 | a legacy record is removed only if no eligible current record is left |
| `RequestRuns.PruneKeepsInv` | src/metadata/memory.rs:924-1007 | after a prune there is still exactly one row per completed current record |
| `RequestRuns.RunKeepsInv` | src/metadata/memory.rs:759-1007 | in every run from a store of legacy records, no unambiguous pair has two records and rows match completed current records one to one |
| `RequestRuns.NeverTwinsIffUnambiguous` | src/metadata/memory.rs:803-817 | over all runs a pair never has a legacy and a current record at once if and only if it holds no slash |
| `RequestRuns.RevisionCountsExchanges` | src/metadata/memory.rs:820-880 | over any stretch of any run in which a pair keeps a record, its revision grows by exactly the number of exchanges that took effect |
| `RevisionedMap.ValidateBatch` | src/metadata/memory.rs:548-571 | the validation loop reports the first fault, in the order the checks are made, or none |
| `RevisionedMap.NoFaultIffCommittable` | src/metadata/memory.rs:548-571 | a batch has no fault if and only if its records are supported, present, current and named once |
| `RevisionedMap.WrittenExactly` | src/metadata/memory.rs:573-603 | writing a fault-free batch one by one sets every named record once, one revision up, and touches no other |
| `RevisionedMap.BatchAdvances` | src/metadata/memory.rs:698-748 | a committed batch consumes the revision of every record it names and no other |
| `RevisionedMap.CasAdvances` | src/metadata/memory.rs:88-118 | a compare-exchange consumes the expected revision exactly when it succeeds |
| `RevisionedMap.ConsumedOnce` | src/metadata/memory.rs:88-118 | over any run no two updates are committed against the same revision of the same record |
| `TimelineRecords.TimelineStore.constructor` | src/metadata/memory.rs:44-61 | a new store is empty |
| `TimelineRecords.TimelineStore.CreateTimeline` | src/metadata/memory.rs:447-466 | succeeds exactly for a supported schema and a free key; it then stores the record given at revision one, drops the cached listing and announces the route; otherwise it changes nothing |
| `TimelineRecords.TimelineStore.CreateTimelineWithLimit` | src/metadata/memory.rs:468-488 | as a create, and never beyond the limit; errors in the order existing, full, unsupported |
| `TimelineRecords.TimelineStore.CompareExchangeTimeline` | src/metadata/memory.rs:490-536 | succeeds exactly for a supported schema and the stored revision; it then stores the record given one revision up and announces its route exactly when it differs from the stored one |
| `TimelineRecords.TimelineStore.CompareExchangeTimelines` | src/metadata/memory.rs:538-603 | commits if and only if every operation names, once, a stored revision and carries a supported record, with one revision up for each and exactly the changed routes announced in order; otherwise it changes nothing and reports the first fault |
| `TimelineRecords.TimelineStore.WriteBatch` | src/metadata/memory.rs:573-603 | the write loop meets every record as it was validated, so no operation can fail halfway |
| `TimelineRecords.UpdatesAreChanges` | src/metadata/types.rs:412-448 | a batch announces exactly the routes that differ from the stored ones, in order |
| `TimelineRecords.TimelineStore.SortedTimelineKeys` | src/metadata/memory.rs:258-273 | returns the keys sorted, from the cache or freshly |
| `TimelineRecords.TimelineStore.ListTimelinesPage` | src/metadata/memory.rs:364-401 | the page is the first `limit` records after the cursor in key order, with a cursor exactly when more follow: the key that the last record's route names |
| `TimelineRecords.MatchesIsWanted` | src/metadata/types.rs:463-472 | a record matches exactly when its state is a listed one, if any is listed, and its owner equals the one given, if one is |
| `TimelineRecords.TimelineStore.ListTimelinesByStatusFilterPage` | src/metadata/types.rs:552-602 | scanning unfiltered pages terminates and answers the page of the filtered, sorted listing, every record in a listed state and with the owner asked for, with a cursor exactly when more matches follow |
| `TimelineRecords.FilteredWalkIsWhole` | src/metadata/types.rs:552-602 | for every page size, any walk over filtered pages by the cursors the store hands out lists a timeline if and only if it is stored in a listed state with the owner asked for, sorted and without repetition |
| `TimelineRecords.WalkFilteredPages` | src/metadata/types.rs:552-602 | asking the store for filtered pages until no cursor comes back terminates and gives the records of exactly the timelines in a listed state with the owner asked for, in key order |
| `TimelineRecords.PagesContinueIffSpaced` | src/metadata/memory.rs:378-394 | pages of every size from every start are continued exactly where they ended if and only if every stored route but the last lies from its key up to before the next |
| `TimelineRecords.WalksWholeIffSpaced` | src/metadata/types.rs:552-602 | walks of every page size over every selection of the records end and read each key once in order if and only if routes are so spaced; otherwise walking one key at a time over all records already fails |
| `TimelineRecords.FallingBackNeverEnds` | src/metadata/types.rs:573-592 | in any store, a route just before its own key makes every walk from there endless |
| `TimelineRecords.AlignedIsSpaced` | src/metadata/memory.rs:378-394 | routes that name their keys are spaced |
| `Pages.WalkReadsAll` | src/metadata/types.rs:497-530 | a finished walk has read everything after its start once and in order |
| `Pages.WalkExists` | src/metadata/types.rs:497-530 | every walk finishes, and each page but the last is full |
| `Pages.SelectAfter` | src/metadata/types.rs:552-602 | filtering and skipping to a cursor commute, so a cursor from a filtered page is good for the next |
| `ByteStrings.PartitionPoint` | src/metadata/memory.rs:378-383 | the binary search splits a sorted listing at the keys past the bound |
| `TimelineRecords.CreateRebuiltIff` | src/metadata/types.rs:412-448 | after a create, replaying the announcements still gives the stored routes exactly when the route names its key |
| `TimelineRecords.ExchangeRebuiltIff` | src/metadata/types.rs:412-448 | the same for an update that took effect |
| `TimelineRecords.BatchRebuiltIff` | src/metadata/memory.rs:573-603 | after a committed batch, replaying the announcements still gives the stored routes exactly when every route written names its key |
| `TimelineRecords.RunKeepsCache` | src/metadata/memory.rs:254-273 | after any run the cached listing is empty or a fresh sort |
| `TimelineRecords.RunKeepsSupported` | src/metadata/memory.rs:447-603 | after any run every stored record has the supported schema, so no listing fails |
| `TimelineRecords.RunConsumesOnce` | src/metadata/memory.rs:447-603 | over any run of creates, updates, batches and listings each revision of each timeline is consumed by at most one committed update |
| `TimelineRecords.RunRebuilds` | src/metadata/memory.rs:447-603 | over any run whose records name their keys, the published updates rebuild every stored route |
| `Failover.AttemptTransfers` | src/service/background.rs:312-353 | a page is attempted in order until it ends, the batch is full or a transfer is deferred, and for no other reason; it reports a deferral exactly when the last transfer was deferred, and as many successes as transfers that moved |
| `Failover.PageAttempts` | src/service/background.rs:355-361 | a page attempts keys past the cursor in order, ends at the cursor it stores, and stores none only after reading the listing to its end |
| `Failover.SweepAscends` | src/service/background.rs:270-378 | within a sweep the attempted keys strictly increase |
| `Failover.SweepExactlyOnce` | src/service/background.rs:270-378 | a sweep that came to its end attempted each timeline that stayed listed exactly once, however the rest of the listing changed |
| `Failover.DeferredIsPassedOver` | src/service/background.rs:311-361 | a deferred timeline is not offered again within the sweep |
| `Failover.AttemptsIncreaseBetweenResets` | src/service/background.rs:390-452 | over any history of passes, an owner's attempted keys strictly increase between two resets of its cursor |
| `Failover.StayingTimelinesAttemptedOnce` | src/service/background.rs:270-378 | over any history of passes, a finished sweep attempted each timeline that stayed Active under the owner exactly once |
| `Failover.Scanner.constructor` | src/service/background.rs:380-395 | a new scanner has no cursors |
| `Failover.Scanner.StoreOwnerCursor` | src/service/background.rs:448-452 | the stored cursor is the one the page leads to, and no other owner's changes |
| `Failover.Scanner.StoreOwnerIndex` | src/service/background.rs:397-409 | keeps the index in range and forgets exactly the owners no longer listed |
| `Failover.Scanner.ProcessPage` | src/service/background.rs:306-362 | a page that is not empty is attempted to its end, to the end of the batch or to its first deferral, and the cursor that leads to is stored |
| `Failover.Scanner.OwnerTargetedPass` | src/service/background.rs:270-378 | every pass ends with at most `batch_size` attempts, takes owners in rotation from the remembered one, cuts pages of the batch size from what each fetch finds, attempts each page to its end, to the end of the batch or to its first deferral, counts exactly the transfers that moved, fails only on a failed fetch, and stops short of its batch only after every owner in turn had an empty page |

## Left out

- LeaseProtocol.NoTimestampTwiceAcrossWorkers: clocks, expiry, owner names and lease tokens are left open, so any worker may take over or refresh at any time with any bound; a run may therefore do more than the service would.
- TimelineCache.TimelineCacheStore.InsertTimeline: each public cache method is one atomic step, because the idle check and the removal are not atomic against lock-free readers; tick and generation counters do not wrap.
- LaneProgress.ReachableRequestDecided: says what becomes of a request that others leave alone; under interference only safety and `LaneProgress.RefusedOnlyWhenFull` are stated, because the code itself lets other requests take a freed slot. The length of the idle queue is not bounded by the code.
- TimelineRecords.TimelineStore.ListTimelinesPage: creates and the refill of the cached listing are one atomic step each, because the code does not hold one lock over both.
- TimelineRecords.TimelineStore.ListTimelinesByStatusFilterPage: requires that stored routes lie from their key up to before the next, which `TimelineRecords.WalksWholeIffSpaced` shows to be exactly when walking ends and answers rightly; endpoint equality (trimming, letter case, socket addresses) is a parameter.
- Failover.Scanner.OwnerTargetedPass: which timelines are Active at each fetch, whether a fetch fails and how a transfer ends are parameters; the transfer itself is not modelled.
- Generator records in the metadata store: the same create, compare-exchange and batch as `RevisionedMap` without announcements.
- Ready tokens, lease validity checks and dedicated claims of the generator runtime: single-branch comparisons.
- Wall-clock conversion, contention backoff and thread yielding: no effect on what is proved.
- Timeouts, cancellation and poisoned-lock recovery.
- The etcd store apart from its two key computations: network client, watch, retry, identity keepalive.
- Idempotency, quota, serve and transfer services, remote procedure facades, authorisation, configuration, metrics, startup.
- Client libraries and benchmarks.
