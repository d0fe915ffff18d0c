# edgeproxy: verified models

Dafny models of the stateful parts of edgeproxy, with proofs about whole runs of them:

- **Replication** (`ReplicationTypes`, `VersionVector`, `LwwStore`, `SyncNode`, `SyncService`,
  `SequenceNumbers`, `Outbox`, `EndToEnd`, `BackendRows`, `Convergence`, `CrashRecovery`, `PoisonedChanges`,
  `HybridClock`): numbered changesets, the version vector, last-write-wins on hybrid-clock timestamps, three
  tables and an in-memory cache, crashes and restarts.
- **Gossip membership** (`Gossip`, `GossipRuns`, `GossipEvents`, `GossipCluster`, `GossipExchanges`): message
  processing, failure detection, event accounting, exchanges of messages, and a cluster over a network that loses, repeats and reorders datagrams.
- **Resource controllers** (`RateLimiter` and `RateGuarantees` with `RepeatedArithmetic`, `ConnectionPool` and
  `IdleConnections`, `LoadBalancer`, `CircuitBreaker`, `Affinity`, `HealthChecker`).

Objects that the program updates in place are classes; each method is proved equal to a step function on
values, and the theorems are about runs of those step functions. `dafny verify dfyconfig.toml` checks everything.

## How to read the models

- The clock is a parameter of every call. CRC32 of a node id, the changeset checksum and JSON parsing are
  functions in `Env`, with no assumption on them except where a lemma states one.
- A restart keeps the tables and nothing else. One SQL statement is one atomic step: `DeliverCrash` stops
  between two changes, `DeliverTorn` between the two statements of one change, and `Flush(upto, ..)` after any
  of the five moments of a flush (drain, number, vector, persist, send).
- Timestamps are stored through `as i64` casts and read back as unsigned: `EncodeRow`/`DecodeRow`. A change is
  `Regular` when it parses, its wall time is below 2^63 and its table name has no colon; each of the three
  hypotheses has a lemma showing what happens without it (`PoisonIsSwallowed`, `CastDecidesAgreement`,
  `ColonTableShadows`). Only deliveries that pass the checksum are constrained.
- Results about runs admit crashes inside a change. The LWW table is then still exact; live rows are exact
  when no crash fell inside a change (`Untorn`), and `TornThenRedeliver` says what such a crash does to a row.
- Counters of 32 bits wrap as in release builds, and so does the token sum of a zero rate-limit window.
  Floating-point rates and scores are exact rationals or reals.
- Iteration orders of hash maps are left open (`Lists`, `Enumerates`).

## Where the code does less than it says

- `TornThenRedeliver`: a crash between the LWW write and the row write of a change can lose that change for
  ever, although the changeset is redelivered; the lemma says exactly when.
- `PoisonIsSwallowed`: a changeset with m unparsable payloads that would be applied is refused m times and
  accepted by delivery m + 1, without them; `SwallowingHarmlessIff` says exactly when this harms the other changes.
- `NothingElseIsLost`: changes recorded but not yet flushed are lost by a restart, and no others.
- `NumbersIncreaseIff`: `flush` only logs a failed write of its number. Numbers increase if and only if, at every
  restart after which something is sent, the persisted number covers what was sent before; `FailedPersistReuses`
  is the shortest run that decides it.
- `OwnNameDesyncs`: a completed changeset that names the receiving node, and nothing else, puts its counter behind.
- `KeysCollideIff`: rows of two tables share an LWW key exactly when one table name continues the other past a colon
  and the row ids make up for it; `ColonTableShadows` says when this suppresses a backend's change.
- `CastDecidesAgreement`: from wall time 2^63 on, cache and table disagree and a restart forgets the winner.
- `OrderMattersOnTies`: `now` always uses counter 0, so equal timestamps occur; on a tie the first arrival stays.
- `PromiseKeptIff`: a closed breaker opens exactly at the failure threshold, in all histories, if and only if that
  threshold is at least two; `ThresholdOneMayNotOpen` gives the exact rule below that.
- `SelfListedIffOwnJoin`: a node lists itself as a member if and only if it receives its own join, which
  bootstrapping from its own address makes possible.
- `LikeNewIff`: a manual reset does not forget the time of the latest failure, so with a threshold of at most one the
  circuit is not like new after it.
- `CapIsSharp`: geography stops having priority over load as soon as a hard limit exceeds 100 * soft * weight.
- `EvictionInvisibleIff`: `cleanup` refunds tokens unless the maximum age earns back a full burst.
- `ZeroWindowDrains`: with a zero window the refill overflows and takes a token from every bucket that is not empty.

## Model

| member | source | states |
|---|---|---|
| VersionVectors.VersionVector.Update | src/replication/sync.rs:32-37 | a node's number only grows: the new value is the maximum |
| VersionVectors.VersionVector.HasSeen | src/replication/sync.rs:40-42 | every number up to the recorded one counts as seen |
| VersionVectors.VersionVector.Merge | src/replication/sync.rs:45-49 | merging is the least upper bound of the two vectors |
| LwwStore.KeysCollideIff | src/replication/sync.rs:272-272 | two "table:pk" keys are equal exactly when the rows are the same, or the longer table name continues the shorter past a colon and the row ids match that |
| LwwStore.KeyInjective | src/replication/sync.rs:272-272 | without a colon in table names, "table:pk" determines table and row |
| LwwStore.CacheAgrees | src/replication/sync.rs:271-299 | with the cache below the table, asking the cache first decides as the table alone |
| LwwStore.ProcessOneKeepsCacheBelow | src/replication/sync.rs:271-327 | one change keeps the cache below the table, parse failures included, and is rejected from then on |
| LwwStore.CastDecidesAgreement | src/replication/sync.rs:280-313 | after a change is applied, cache and table agree on all later changes exactly when its wall time is below 2^63 |
| LwwStore.WinnerDecides | src/replication/sync.rs:271-299 | the computed winner of a key is the earliest change with the greatest timestamp |
| LwwStore.DecidingIsWinner | src/replication/sync.rs:271-299 | conversely, whatever position is earliest with the greatest timestamp holds the winner |
| LwwStore.ProcessRefines | src/replication/sync.rs:245-352 | the incremental store equals the declarative reading after any list of changes |
| LwwStore.SameWinnersSameTables | src/adapters/outbound/sqlite_backend_repo.rs:84-88 | equal winners give equal LWW tables and equal live rows, though deleted rows may differ |
| SyncNode.RunKeepsCacheBelow | src/replication/sync.rs:226-352 | in every reachable state the cache is below the table, whatever failed or crashed |
| SyncNode.CachedDecisionIsTableDecision | src/replication/sync.rs:271-299 | in every reachable state the cached decision is the table's decision |
| SyncNode.RunStaysSynced | src/replication/sync.rs:167-182 | persisted versions equal the in-memory vector after every call, so a restart recovers vector and sequence |
| SyncNode.OwnNameDesyncs | src/replication/sync.rs:254-256 | a delivery puts counter and vector out of step exactly when it completes a changeset that names the node itself |
| SyncNode.SequenceNumbersIncrease | src/replication/sync.rs:196-223 | over any run with crashes and restarts in which every write of a number succeeds, the numbers of changesets that leave the node strictly increase |
| SequenceNumbers.FailedPersistReuses | src/replication/sync.rs:215-217 | around a restart the next number is greater exactly if the write of the last one succeeded, and the same exactly if it failed |
| SequenceNumbers.NumbersIncreaseIff | src/replication/sync.rs:196-223 | over every run, failed writes included, the numbers sent strictly increase exactly when each restart that is followed by a send finds a persisted number covering all sent before |
| SequenceNumbers.PersistingCovers | src/replication/sync.rs:215-217 | successful writes of all numbers are enough for that |
| SyncNode.SentAreStamped | src/replication/sync.rs:189-223 | whatever is sent verifies, names its node, is non-empty and is stamped with the node's hash |
| Outbox.PendingIsRecent | src/replication/sync.rs:189-201 | in every reachable state the pending list is exactly what was recorded since the last flush that sent or restart, field by field and in order |
| Outbox.FlushSendsRecorded | src/replication/sync.rs:196-223 | a flush that gets to send puts exactly those changes into one changeset; no other step sends |
| Outbox.NothingElseIsLost | src/replication/sync.rs:189-223 | over every run, what was sent followed by what is pending is, in order, all that was recorded except what a restart caught before its flush |
| Outbox.AllIsSent | src/replication/sync.rs:189-223 | without a restart everything recorded is sent or still pending, in order |
| EndToEnd.ReceiverFollows | src/replication/sync.rs:196-268 | a fresh receiver of all that a node sent holds exactly what the node recorded and did not lose or keep back, whatever crashes the sender went through |
| EndToEnd.ReaderSeesLastWord | src/replication/sync.rs:189-389 | a reader at the receiver sees, column by column with the defaults, the payload of the call with the greatest clock reading for that row, and nothing after a deletion or without any call |
| SyncNode.NoDoubleAcceptance | src/replication/sync.rs:233-256 | after a peer's changeset is completely accepted, only greater numbers of that peer are processed or begun, across restarts and torn attempts |
| SyncNode.TakenUpIff | src/replication/sync.rs:226-241 | in every reachable state a peer's changeset is processed exactly when it passes the checksum and its number exceeds all accepted ones of that peer |
| PoisonedChanges.AppliedCountsEffective | src/replication/sync.rs:243-256 | the number a completed apply reports counts the changes newer than the table and than all earlier ones of their key |
| BackendRows.RowsNeverVanish | src/replication/sync.rs:355-389 | over every run no row of the backends table goes away, and each row, deleted or live, carries the columns of a payload delivered for it |
| SyncNode.TornRefines | src/replication/sync.rs:302-324 | a crash between the two statements of a change leaves the LWW table of a node that processed that change |
| SyncNode.RunRefines | src/replication/sync.rs:226-389 | after any run the LWW table is exactly what the processed changes dictate, and so are the live rows if no crash fell inside a change |
| SyncNode.RunIsDeclarative | src/replication/sync.rs:271-389 | per row: the stored timestamp is the greatest, and without torn changes the live row is what the earliest change bearing it dictates |
| Convergence.RetriesAbsorbed | src/replication/sync.rs:245-256 | interrupted attempts that are retried leave no trace in a source's winners |
| Convergence.WinnerAmongItsHash | src/replication/types.rs:44-52 | a winner is the winner among the changes carrying its own node hash |
| Convergence.WinnersAgree | src/replication/sync.rs:226-299 | lists completing the same changesets per source have the same winners, however the sources interleave |
| Convergence.ConvergePerSource | src/replication/sync.rs:226-389 | nodes that complete the same changesets per source end with equal LWW tables, and with equal live rows if no change was torn |
| Convergence.SameSetsSamePerSource | src/replication/sync.rs:40-42 | the version vector makes equal sets of accepted changesets equal per-source sequences |
| Convergence.Converge | src/replication/sync.rs:226-389 | receivers that complete the same set of changesets hold equal LWW tables, through crashes anywhere, restarts and redelivery, and equal live rows if no change was torn |
| Convergence.NumberIdentifies | src/replication/agent.rs:143-160 | among what peers with covered restarts send, source and number identify the changeset |
| Convergence.ClusterConverges | src/replication/sync.rs:189-389 | in a cluster of peers whose restarts are covered, receivers that completed the same numbers hold equal LWW tables, and equal live rows if no change was torn |
| CrashRecovery.ProcessRemembers | src/replication/sync.rs:271-299 | after a list is processed the table rejects every change of it |
| CrashRecovery.ProcessIgnoresCache | src/replication/sync.rs:271-327 | processing writes the same tables whatever the cache, as long as it is below the table |
| CrashRecovery.CrashThenRedeliver | src/replication/sync.rs:245-256 | a crash between two changes, restart and redelivery give the tables and vector of an uninterrupted apply |
| CrashRecovery.TornThenRedeliver | src/replication/sync.rs:302-324 | after a crash inside a change, redelivery restores the live rows exactly under the stated condition |
| PoisonedChanges.FailuresAreBlocks | src/replication/sync.rs:245-256 | the payloads that fail are exactly the unparsable changes newer than the table and than all earlier changes of their key |
| PoisonedChanges.OneDelivery | src/replication/sync.rs:245-256 | a delivery completes exactly when no such payload is left; otherwise it stops at one and leaves one fewer |
| PoisonedChanges.PoisonIsSwallowed | src/replication/sync.rs:226-256 | with m such payloads, the changeset is still unseen after k deliveries exactly when k <= m; then it is recorded as seen and those changes are lost |
| PoisonedChanges.SwallowingHarmlessIff | src/replication/sync.rs:245-256 | the live rows are those of the changeset without its unparsable changes exactly when no row's deciding change comes after an unparsable one of its key at least as new and dictates another row than the one by then |
| CrashRecovery.OrderMattersOnTies | src/replication/types.rs:56-67 | two changes of a row commute exactly when their timestamps differ or they dictate the same row |
| CrashRecovery.ColonTableShadows | src/replication/sync.rs:303-321 | a change to another table suppresses a backend's exactly when that table's name continues "backends" past a colon, the keys meet, and the backend's change is not newer |
| SyncServices.SyncService.constructor | src/replication/sync.rs:77-184 | a new service over an existing database is the restart of any node with those tables |
| SyncServices.SyncService.RecordChange | src/replication/sync.rs:189-193 | appends a change stamped now by this node to the pending list |
| SyncServices.SyncService.FlushPending | src/replication/sync.rs:196-223 | takes the flush step of the node model; returns what that step sends |
| SyncServices.SyncService.ShouldApplyChange | src/replication/sync.rs:271-299 | decides as the store model, cache first |
| SyncServices.SyncService.BuildRow | src/replication/sync.rs:361-376 | the row written for a payload, with the defaults of absent columns |
| SyncServices.SyncService.ApplyBackendChange | src/replication/sync.rs:355-389 | writes the row a change dictates, soft-deletes, or fails to parse and writes nothing |
| SyncServices.SyncService.ApplySingleChange | src/replication/sync.rs:302-352 | LWW row first, then the backend row, then the cache; a parse failure stops after the first |
| SyncServices.SyncService.ApplyChangeset | src/replication/sync.rs:226-268 | takes the delivery step of the node model; reports checksum, parse or number applied |
| HybridClock.CounterBounded | src/replication/types.rs:70-110 | the counter is at most the number of events in the causal past |
| HybridClock.NoWrap | src/replication/types.rs:83-101 | below 2^32 events the 32-bit increment never wraps |
| HybridClock.OrderIsNumeric | src/replication/types.rs:44-52 | timestamps are ordered as the number made of wall time, counter and node hash, most significant first |
| HybridClock.TickIncreases | src/replication/types.rs:69-110 | a tick is greater than both timestamps it is given |
| HybridClock.TickIsLeast | src/replication/types.rs:69-110 | a tick is the least timestamp at or after the clock reading and above its inputs |
| HybridClock.HappensBeforeIncreases | src/replication/types.rs:44-110 | happens-before implies a strictly smaller timestamp |
| HybridClock.WallTimeIsGreatestReading | src/replication/types.rs:70-110 | the wall time is exactly the greatest clock reading in the causal past |
| HybridClock.StampsUnique | src/replication/types.rs:44-52 | timestamps are unique in an execution when distinct nodes hash differently |
| Gossip.GossipNode.Insert | src/replication/gossip.rs:176-181 | records a member as alive now and announces it exactly if it was unknown |
| Gossip.GossipNode.AbsorbList | src/replication/gossip.rs:258-287 | absorbs a member list in order, skipping the local node |
| Gossip.GossipNode.ProcessMessage | src/replication/gossip.rs:156-290 | new map, reply and join announcements for each kind of message |
| Gossip.GossipNode.CheckMemberFailures | src/replication/gossip.rs:293-325 | exactly the silent alive members become dead, each announced once by two events |
| Gossip.GossipNode.SelectPingTarget | src/replication/gossip.rs:328-342 | the address of some alive member, or none exactly when nobody is alive |
| GossipRuns.JoinsAreNewKeys | src/replication/gossip.rs:176-195 | the ids a message announces are exactly the new keys, each once |
| GossipRuns.JoinsCountGrowth | src/replication/gossip.rs:258-287 | the number of joins a message announces is the growth of the map |
| GossipRuns.JoinedExactlyOnce | src/replication/gossip.rs:156-290 | over a run every known id has been announced exactly once, and nobody else |
| GossipRuns.LastSeenIsLastHeard | src/replication/gossip.rs:166-173 | an id is known exactly when heard of, and last_seen is when that was |
| GossipRuns.DeadIffTimedOut | src/replication/gossip.rs:293-325 | a known member is dead exactly when some check since it was last heard came later than the timeout allows, and alive otherwise |
| GossipRuns.LeavesAreTimeouts | src/replication/gossip.rs:293-325 | an id leaves at a check exactly when it is overdue there and no check since it was last heard found it overdue; it is dead afterwards |
| GossipRuns.CheckLeavesNobodyStale | src/replication/gossip.rs:301-312 | after a check nobody alive is older than the timeout |
| GossipRuns.HeardBetweenLeaves | src/replication/gossip.rs:293-325 | between two departures of an id there is a message that mentions it |
| GossipEvents.KnownIsAnnounced | src/replication/gossip.rs:156-290 | the MemberJoined events among the actions of a run name every known id exactly once, and nobody else |
| GossipEvents.AnnouncedAsHeard | src/replication/gossip.rs:176-195 | a MemberJoined event describes the member as the message did, alive at that moment |
| GossipEvents.TimeoutIsAnnounced | src/replication/gossip.rs:293-325 | a MemberLeft event names an id exactly when a check finds it overdue for the first time since it was heard, once, directly after its change from alive to dead |
| GossipCluster.StepKeepsInvariant | src/replication/gossip.rs:156-342 | every step of the cluster except the delivery of a node's own join keeps the system invariant |
| GossipCluster.AlwaysTruthful | src/replication/gossip.rs:432-563 | in every behaviour without own joins delivered, all maps and packets name real nodes with their true addresses, nobody is Suspect, no node lists itself |
| GossipCluster.SelfListedIffOwnJoin | src/replication/gossip.rs:224-242 | over a behaviour, no node ever lists itself exactly when no node ever receives its own join |
| GossipCluster.NoSelfBootstrapSuffices | src/replication/gossip.rs:446-463 | where no node bootstraps from its own address, no own join is ever delivered |
| GossipCluster.TruthfulWithoutSelfBootstrap | src/replication/gossip.rs:432-563 | so the whole invariant holds in every behaviour without self-bootstrap |
| GossipExchanges.PingIsAnswered | src/replication/gossip.rs:166-197 | a delivered ping puts exactly an ack to its origin into the network and makes its sender known as alive now |
| GossipExchanges.AckRefreshes | src/replication/gossip.rs:198-222 | a delivered ack makes its sender known as alive now, as described, and sends nothing |
| GossipExchanges.PingRoundTrip | src/replication/gossip.rs:166-222 | ping, delivery, delivery of the ack: each packet is there in its turn, and both nodes know each other as alive since they heard |
| GossipExchanges.JoinIsAnswered | src/replication/gossip.rs:224-256 | a delivered join makes the joiner known and sends it exactly one list naming every member once |
| GossipExchanges.JoinRoundTrip | src/replication/gossip.rs:224-290 | whenever the list answering a join is delivered, the joiner knows everybody else the peer knew, alive and with true addresses |
| RateLimiting.EarnedIsFloor | src/infrastructure/rate_limiter.rs:68-95 | the tokens earned are the floor of elapsed times rate |
| RateLimiting.RateLimiter.CheckWithCost | src/infrastructure/rate_limiter.rs:85-122 | refills, caps and takes tokens as the bucket model for every configuration, however often the exchange fails spuriously |
| RateLimiting.ZeroWindowDrains | src/infrastructure/rate_limiter.rs:68-103 | with a zero window a refill fills an empty bucket and takes one token from any other |
| RateLimiting.RateLimiter.Cleanup | src/infrastructure/rate_limiter.rs:148-156 | keeps exactly the entries refilled within the maximum age |
| RateLimiting.ServeConserves | src/infrastructure/rate_limiter.rs:85-122 | what a run admits and leaves is paid for by the old content and the time since the last refill |
| RateLimiting.AdmittedSinceCreation | src/infrastructure/rate_limiter.rs:85-122 | since its entry was created a client gets at most burst plus the rate times the elapsed time |
| RateLimiting.AdmittedInInterval | src/infrastructure/rate_limiter.rs:85-122 | from any bucket within bounds, the same bound over an interval up to one token |
| RateLimiting.AdmittedBetween | src/infrastructure/rate_limiter.rs:85-122 | over any later stretch of a run, the same bound up to one token |
| RateLimiting.EvictionInvisibleIff | src/infrastructure/rate_limiter.rs:148-156 | cleanups change no decision, in any run, exactly when the maximum age earns back a full burst (with a zero window: exactly when the burst is zero) |
| RateGuarantees.AllowedIff | src/infrastructure/rate_limiter.rs:85-122 | a check is allowed exactly when the cost is within the burst and within the tokens held plus the floor of the elapsed time times the rate |
| RateGuarantees.AllowedByHistoryIff | src/infrastructure/rate_limiter.rs:85-122 | over every run of a client, a request is allowed exactly when for every earlier request its cost fits into the burst plus what was earned less what was admitted since |
| RateGuarantees.NeverDeniedIff | src/infrastructure/rate_limiter.rs:85-122 | a client is never denied exactly when in every stretch its demand is within the burst plus what the times of its requests earn |
| RateGuarantees.PatientNeverDenied | src/infrastructure/rate_limiter.rs:85-122 | a client that waits until each request has been earned back is never denied |
| ConnectionPooling.ConnectionPool.PopUsable | src/infrastructure/connection_pool.rs:139-157 | pops stale connections until a usable one turns up |
| ConnectionPooling.ConnectionPool.Acquire | src/infrastructure/connection_pool.rs:133-179 | hands out an idle connection, a new one, or the error; new pool content |
| ConnectionPooling.ConnectionPool.Release | src/infrastructure/connection_pool.rs:183-205 | counts down; requeues unless expired or full; ignores unknown pools |
| ConnectionPooling.ConnectionPool.Discard | src/infrastructure/connection_pool.rs:208-216 | counts down and does not requeue |
| ConnectionPooling.StepKeeps | src/infrastructure/connection_pool.rs:133-216 | every call keeps capacity, counting and separation of idle and held connections |
| ConnectionPooling.CapacityHolds | src/infrastructure/connection_pool.rs:99-216 | over every run idle plus in_use stays within the maximum, in_use counts the held ones, none is both idle and held |
| ConnectionPooling.HandedOutOnce | src/infrastructure/connection_pool.rs:133-179 | an acquired connection is held by nobody; exhaustion means the held ones alone reach the maximum |
| IdleConnections.QueueIsLine | src/infrastructure/connection_pool.rs:133-205 | over every run the idle queue is, in order of release, exactly the connections released within their lifetime and neither handed out nor dropped as stale since |
| IdleConnections.AcquireYields | src/infrastructure/connection_pool.rs:133-179 | an acquire yields the longest-waiting usable connection, with its socket and age, whatever connecting would yield; without one, exhaustion or what connecting yields |
| LoadBalancing.PickBackend | src/domain/services/load_balancer.rs:40-98 | the loop computes the selection function |
| LoadBalancing.PickIsEarliestLeast | src/domain/services/load_balancer.rs:51-98 | none exactly when nobody is eligible; otherwise the earliest of least score |
| LoadBalancing.SelectionIsLexicographic | src/domain/services/load_balancer.rs:72-126 | with capped hard limits: first the geo tier, then load over weight, then position |
| LoadBalancing.PickIsNearest | src/domain/services/load_balancer.rs:72-126 | as soon as an eligible backend meets a proximity criterion, the pick meets that one or a better one: client country, client region, local region, fallback |
| LoadBalancing.CapIsSharp | src/domain/services/load_balancer.rs:60-85 | the nearer of two adjacent tiers wins at all counts exactly when its hard limit is capped |
| LoadBalancing.PickHasLeastListedScore | src/domain/services/load_balancer.rs:130-162 | the pick has the least listed score among eligible backends |
| LoadBalancing.GreedyBalance | src/domain/services/load_balancer.rs:51-98 | over any run of arrivals, two backends of one place differ by at most one connection's load |
| CircuitBreaking.CircuitBreaker.AllowRequest | src/infrastructure/circuit_breaker.rs:134-158 | admits unless open within the reset timeout; moves to half-open |
| CircuitBreaking.CircuitBreaker.RecordSuccess | src/infrastructure/circuit_breaker.rs:161-183 | effect of a success on that backend's circuit alone |
| CircuitBreaking.CircuitBreaker.RecordFailure | src/infrastructure/circuit_breaker.rs:186-229 | effect of a failure on that backend's circuit alone |
| CircuitBreaking.CircuitBreaker.Reset | src/infrastructure/circuit_breaker.rs:260-267 | closes an existing circuit and clears its counts |
| CircuitBreaking.CircuitTellsHistory | src/infrastructure/circuit_breaker.rs:134-229 | each field of the circuit is the stated function of the calls seen, for every threshold |
| CircuitBreaking.OpensExactly | src/infrastructure/circuit_breaker.rs:191-213 | for every threshold, when a closed circuit opens, as a condition on the calls seen |
| CircuitBreaking.OpensExactlyAtThreshold | src/infrastructure/circuit_breaker.rs:191-213 | for thresholds from two on, a closed circuit opens exactly when the failure streak reaches the threshold |
| CircuitBreaking.AdmitsAfterTimeout | src/infrastructure/circuit_breaker.rs:140-155 | open, it admits exactly from the reset timeout after the latest failure on |
| CircuitBreaking.ClosesAfterSuccesses | src/infrastructure/circuit_breaker.rs:165-174 | half-open, it closes exactly at the success threshold with no failure in between |
| CircuitBreaking.ThresholdOneMayNotOpen | src/infrastructure/circuit_breaker.rs:196-199 | with a threshold of at most one, a failure opens it exactly when within the window of the latest failure seen while closed, or of time 0; the first failure, exactly within the window of time 0 |
| CircuitBreaking.PromiseKeptIff | src/infrastructure/circuit_breaker.rs:191-213 | opening exactly at the threshold holds in all histories if and only if the threshold is at least two |
| CircuitBreaking.ResetCloses | src/infrastructure/circuit_breaker.rs:260-267 | after a manual reset the circuit is closed, has counted nothing and admits every request |
| CircuitBreaking.LikeNewIff | src/infrastructure/circuit_breaker.rs:191-267 | a reset circuit goes through the states of a new one, whatever follows, exactly when the threshold is at least two or no failure met it closed after time 0 |
| Affinity.BindingRepository.Touch | src/adapters/outbound/dashmap_binding_repo.rs:86-90 | refreshes an existing binding only |
| Affinity.BindingRepository.CleanupExpired | src/adapters/outbound/dashmap_binding_repo.rs:92-108 | keeps exactly the bindings seen within the TTL and returns how many went |
| Affinity.ProxyService.ResolveBackend | src/application/proxy_service.rs:59-161 | returned backend and bindings are those of the resolution functions |
| Affinity.ResolveBinds | src/application/proxy_service.rs:59-161 | a backend is returned exactly when the client ends up bound to it, listed and healthy; other clients keep their bindings |
| Affinity.FreshChoice | src/application/proxy_service.rs:79-161 | without a usable binding the client gets the earliest listed backend of least score for its own location and the current counts, none exactly if nobody is eligible, and is bound to it from now |
| Affinity.FreshChoiceIsNearest | src/application/proxy_service.rs:95-100 | with capped limits no eligible listed backend is closer to the client, and every proximity criterion some eligible one meets is met or bettered |
| Affinity.BindingSticks | src/application/proxy_service.rs:59-161 | a client returning within the TTL keeps its backend and creation time across all interleavings; last_seen is its last connection |
| Affinity.EveryConnectReachesIt | src/application/proxy_service.rs:63-77 | each of its connections in the run is answered with that backend |
| Affinity.LastSeenIsLatestConnect | src/application/proxy_service.rs:63-77 | in every run a bound client's last_seen is the time of its latest connection |
| Affinity.CollectForgetsIff | src/adapters/outbound/dashmap_binding_repo.rs:92-108 | a collection forgets exactly the clients away for longer than the TTL and leaves the other bindings as they are |
| HealthChecking.HealthChecker.UpdateStatus | src/infrastructure/health_checker.rs:206-253 | the in-place update agrees with the pure transition except for the time of the check |
| HealthChecking.CountersAreRuns | src/infrastructure/health_checker.rs:301-342 | the counters are the lengths of the run of equal results at the end; latency and error are those of the last result |
| HealthChecking.HealthIsLatestDecisive | src/infrastructure/health_checker.rs:301-342 | unhealthy exactly when the latest decisive run of results was a failing one |
| HealthChecking.CallbacksAlternate | src/infrastructure/health_checker.rs:234-252 | callbacks alternate starting with "unhealthy", and their number tells the health |

## Left out

- Sequence numbers are unbounded naturals: the 64-bit counter and the `as i64` cast of a changeset number are not modelled.
- The replication log table is written and never read, so it is not part of the tables; `get_changes_since` is a stub.
- The agent's flush loop and event loop only repeat `flush` and log; the order persist-then-send is part of the flush step.
- Transport, encodings, checksum and hash algorithms, SQLite itself and the text of JSON are parameters.
- Database errors other than a failed write of a flush's number are not modelled.
- Concurrency inside one component: calls are sequential, a garbage-collection pass and an acquire are atomic.
- `ConnectionPool::clear` and, for windows above zero, the 64-bit overflow of token counts are not modelled. The rate bounds are for windows above zero: a zero window has no rate.
- Rounding of floating-point scores and rates.
- The flags `app`, `wg_ip` and `port` of a backend play no part in selection and are omitted there; DNS, TLS, HTTP servers, config and shutdown are omitted altogether.
