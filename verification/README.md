# thingd, modelled and proved in Dafny

thingd is an embeddable store for objects, events, queues and links, with a server in front of it. This project
models its hardest parts and proves what holds of them over every input and every run.

- **The in-memory engine** (`Engine.dfy`) is one class, `MemoryEngine`, whose methods update its collections in
  place. Each method is proved equal to a function on values; the theorems are about those functions.
  - *Queues*: push, single and batch claim, single and batch acknowledgement, rejection and lease expiry on one
    list that is stably re-sorted by priority (`Queue.dfy`). Batch operations against the single ones
    (`QueueBatch.dfy`), whole runs (`QueueRuns.dfy`), and the life of one job in a run: leases, retry delays,
    attempt accounting (`JobTrace.dfy`, `QueueLeases.dfy`).
  - *Events*: sequences, idempotency keys that outlive deleted events, the protected stream (`EventLog.dfy`).
  - *Links*: ids of the form `link-n` across creation, import and deletion (`Links.dfy`).
  - *Objects*: versions, compare-and-set writes and unique indexes over JSON fields (`Objects.dfy`), the order of
    JSON values (`Json.dfy`), the `$like` scan (`Like.dfy`) and how it compares with SQL's LIKE (`SqlLike.dfy`).
- **Logical snapshots** (`Framing.dfy`, `SnapshotImport.dfy`, `SnapshotExport.dfy`, `Snapshots.dfy`): the paged
  export loops, the chunk-to-line framer, the header and record state machine. Export and import are composed with
  the engine: the snapshot of one store goes into any other (`ObjectMerge.dfy`, `Merge.dfy`), and from that into an
  empty one (`RoundTrip.dfy`) and over the store itself (`Reimport.dfy`).
- **The rate limiter** (`RateLimit.dfy`): token buckets whose stale entries are pruned, what they grant at most and
  what they grant at least, and what exactly to a client that asks at even intervals (`RateSpacing.dfy`).
- **Schema canonicalisation and validation** (`Schema.dfy`, `SchemaOrder.dfy`).

`Prelude.dfy`, `Ordering.dfy` and `Runs.dfy` hold sequences, splitting, string order, a stable sort, permutations
and induction over runs; `Store.dfy` is the engine's state as one value, with the invariant that every engine method
keeps.

What the program takes from outside is a parameter: clock readings are arguments of each call (a claim takes two,
one for the expiry release and one for itself), and JSON parsing, decoding and encoding are arbitrary functions,
of which the snapshot theorems ask only that each written record of the snapshot reads back, holds no newline and is not
blank (`Snapshots.CodecExists` gives such functions for every snapshot). Counters have the program's widths: u32 and
u64 additions wrap as in a release build, and saturate where the program saturates.

Where the code and its documentation disagree the model follows the code:

- `max_attempts` is documented as the number of attempts before a job is dead, but lease expiry does not look at it
  (`QueueLeases.ExpiryIgnoresTheLimit`). The limit is exceeded exactly when a job is claimed after a lease of it ran
  out at or past the limit (`QueueLeases.LimitIsExceededIff`).
- A claim batch is not always the same as single claims: `QueueBatch.BatchClaimIsRepeatedClaim` gives the exact
  condition.
- The snapshot import is documented as idempotent for events; it is so exactly for events with an idempotency key
  (`Reimport.ReimportIsIdempotentIffKeyed`).
- The option for an expected version is documented to fail when the object is missing. A write with options takes
  an expected version of zero to mean that the object must be missing; a write with source metadata does not
  (`Objects.ExpectedOfMissing`).
- A comment says that a `$like` pattern is matched as in SQL. It is so exactly for patterns that begin and end with
  `%` and have no `_` (`SqlLike.ScanIsLikeIff`): an underscore is an ordinary character
  (`SqlLike.UnderscoreIsOrdinary`), and the match is not anchored at either end.
- The import puts the objects of a snapshot one by one. A unique index can therefore reject a snapshot although the
  merged store would satisfy it, when an object is blocked by one that a later record would replace
  (`ObjectMerge.SwapIsBlocked`). `Merge.SnapshotMerges` has the exact condition.
- The canonical schema is documented as deterministic. Validation lets links and annotations share a name, and then
  declaration order shows in it (`SchemaOrder.SameLinksTwoForms`, and `SchemaOrder.OrderIsInvisibleIff` for the exact
  condition).
- A limit of `max` requests per minute does not give a client that asks as often as that many: each refill throws the
  fraction of a token away, which can cost half (`RateSpacing.HalfRateIsReached`) and no more
  (`RateLimit.SteadyClientIsServed`). At even intervals it costs nothing exactly when whole intervals make up the time
  of a token (`RateSpacing.FullRateIff`).

## Model

| member | source | states |
|---|---|---|
| `Engine.MemoryEngine.constructor` | crates/thingd/src/in_memory.rs:30-50 | a new engine is empty and satisfies the invariant |
| `Engine.MemoryEngine.PushJob` | crates/thingd/src/in_memory.rs:552-561 | pushing appends to the named queue only, or returns the job that has the id already; the invariant is kept |
| `Engine.MemoryEngine.ReleaseExpiredLeases` | crates/thingd/src/in_memory.rs:779-793 | exactly the leased jobs whose lease ended by the clock become ready, in place, in that queue only |
| `Engine.MemoryEngine.ClaimJob` | crates/thingd/src/in_memory.rs:563-589 | release, stable sort, lease of the first eligible job; nothing happens when the queue does not exist; the invariant is kept |
| `Engine.MemoryEngine.ClaimJobs` | crates/thingd/src/in_memory.rs:591-626 | the loop leases the first eligible jobs up to the limit, returns them in queue order, and rejects a limit over the cap with the queue untouched |
| `Engine.MemoryEngine.AckJob` | crates/thingd/src/in_memory.rs:628-643 | completes a leased job; none when it is unknown, a conflict when it is not leased |
| `Engine.MemoryEngine.AckJobs` | crates/thingd/src/in_memory.rs:645-691 | all ids or none: cap and duplicates are invalid input, a missing or unleased job is a conflict, and either leaves the queue untouched |
| `Engine.MemoryEngine.NackJob` | crates/thingd/src/in_memory.rs:693-724 | takes the lease away; dead at the attempt limit, otherwise ready after the delay; keeps the old error text when none is given |
| `Queue.PreparedFacts` | crates/thingd/src/in_memory.rs:568-577 | release and the in-place sort lose and duplicate no job and leave the queue in priority order |
| `Queue.FindPrepared` | crates/thingd/src/in_memory.rs:568-577 | each job is afterwards what its own expiry makes of it and nothing more |
| `Queue.OneIsBatchOfOne` | crates/thingd/src/in_memory.rs:563-626 | a single claim is a batch claim of one, but for the attempt counter, which wraps in the one and saturates in the other |
| `QueueBatch.PreparedFixpoint` | crates/thingd/src/in_memory.rs:779-793 | releasing and stably sorting a sorted queue without expired leases changes nothing |
| `QueueBatch.CounterAgreement` | crates/thingd/src/in_memory.rs:584-619 | wrapping and saturating counters give the same batch exactly when no chosen job's counter is full |
| `QueueBatch.DeadOnArrival` | crates/thingd/src/in_memory.rs:563-589 | when a lease is over as it is granted, the next claim at that clock hands out the same job again |
| `QueueBatch.BatchClaimIsRepeatedClaim` | crates/thingd/src/in_memory.rs:563-626 | a batch of k equals k single claims at one clock, in queue contents, order and answer, if and only if k is zero, or nothing is eligible, or no chosen counter is full and (unless k is one) the leases outlive the release clock |
| `QueueBatch.BatchAckIsRepeatedAck` | crates/thingd/src/in_memory.rs:628-691 | a batch acknowledgement fails with the queue untouched or equals acknowledging its ids in order at one clock; it succeeds exactly when, within the cap, the ids are distinct and all leased, which is exactly when each single acknowledgement would succeed |
| `QueueRuns.JobStep` | crates/thingd/src/in_memory.rs:551-794 | what any operation does to any one job, and that ids stay distinct and answers are the jobs as stored |
| `QueueRuns.NoJobLostOrDuplicated` | crates/thingd/src/in_memory.rs:552-724 | after any run the queue holds exactly the pushed jobs, each once, with the identity of its first push |
| `QueueRuns.AlwaysFifo` | crates/thingd/src/in_memory.rs:552-617 | in any run, however often the queue is re-sorted in place, jobs of equal priority stand in order of first push |
| `QueueRuns.ClaimsHighestPriorityThenOldest` | crates/thingd/src/in_memory.rs:563-626 | a claim in any run returns eligible jobs only, by priority and then first push, and an eligible job it leaves behind comes after all of them and is left only because the limit was reached |
| `QueueLeases.HistoryIsLawful` | crates/thingd/src/in_memory.rs:551-794 | in any run a job appears by its first push and then changes only by claim, expiry, acknowledgement and rejection, each under its own condition |
| `QueueLeases.TerminalJobsStay` | crates/thingd/src/in_memory.rs:563-724 | once completed or dead a job never changes again and no claim returns it |
| `QueueLeases.LeaseExclusion` | crates/thingd/src/in_memory.rs:563-626 | under a non-decreasing clock two claims of a job with no rejection between them are separated by the first lease's expiry |
| `QueueLeases.NotBeforePushedTime` | crates/thingd/src/in_memory.rs:563-724 | in any run under a non-decreasing clock no claim, rejections before it or not, comes before the availability time the job was first pushed with, unless the job was pushed as leased with attempts left |
| `QueueLeases.RetriablePushIsClaimedEarly` | crates/thingd/src/in_memory.rs:693-724 | every job pushed as leased with attempts left, and not available at the earliest time there is, has a run that rejects it and claims it too early, so the exception is exact |
| `QueueLeases.NotBeforeRetryDelay` | crates/thingd/src/in_memory.rs:707-721 | no rejected job is claimed before the delay of its latest rejection has passed |
| `QueueLeases.AttemptAccounting` | crates/thingd/src/in_memory.rs:563-793 | for fresh jobs, in any run: claims are rejections plus acknowledgements plus expiries plus one if leased; the attempt counter is at most max(1, limit) plus the leases that ran out at or past the limit, and while the claims fit a u32 it is past the limit by exactly these, counting the attempt a ready job waits for; a dead job has used its limit; and the counter equals the claims exactly while they fit a u32 |
| `QueueLeases.LimitIsExceededIff` | crates/thingd/src/in_memory.rs:563-793 | for fresh jobs, in any run of any length: a job is claimed more often than max(1, limit) if and only if some claim came with or after the expiry of a lease at or past the limit; and the counter is past the limit if and only if there are more such expiries than the one whose claim a ready job still waits for |
| `QueueLeases.ExpiryIgnoresTheLimit` | crates/thingd/src/in_memory.rs:779-793 | for every fresh job, with any limit and availability time, and every n: the run of expiring leases in which each of n claims hands the job out, so no bound by the limit alone holds |
| `QueueLeases.QueuesAreIndependent` | crates/thingd/src/in_memory.rs:551-794 | in a run over many queues each queue is in the state that its own operations alone bring it to |
| `Engine.MemoryEngine.AppendEvent` | crates/thingd/src/in_memory.rs:452-481 | a known key returns the live event unchanged; otherwise the next sequence, the stamp and the key are recorded; the invariant is kept below the counter's maximum |
| `Engine.MemoryEngine.DeleteLastEvent` | crates/thingd/src/in_memory.rs:526-537 | removes the last event of the stream and keeps its idempotency key; a protected stream is refused |
| `Engine.MemoryEngine.DeleteStream` | crates/thingd/src/in_memory.rs:539-548 | removes all events of the stream, counts them and keeps their idempotency keys; a protected stream is refused |
| `EventLog.OneLiveEventPerKey` | crates/thingd/src/in_memory.rs:452-481 | under the log invariant at most one live event has a given stream and non-empty key |
| `EventLog.AppendKeepsOrder` | crates/thingd/src/in_memory.rs:467-480 | an append keeps the invariant if and only if it is a replay or the counter is below its maximum |
| `EventLog.LogStaysOrdered` | crates/thingd/src/in_memory.rs:452-548 | throughout a run of appends and deletions sequences increase strictly, live keyed events are unique and the key index points at them, if and only if the run never appends a new event at a full counter |
| `EventLog.ShortRunsNeverExhaust` | crates/thingd/src/in_memory.rs:467 | no run of fewer than 2^64 operations fills the counter |
| `EventLog.SequencesNeverReused` | crates/thingd/src/in_memory.rs:452-548 | new events get strictly larger sequences than all new events before them in the run, deleted ones included |
| `EventLog.ReplayIsIdempotent` | crates/thingd/src/in_memory.rs:452-464 | appending any list of keyed events again at once, at any clock, leaves the log as it is and returns the same events |
| `EventLog.ProtectedStreamOnlyGrows` | crates/thingd/src/in_memory.rs:449-548 | in any run what the audit stream held at one time is a prefix of what it holds at any later time |
| `Engine.MemoryEngine.CreateLink` | crates/thingd/src/in_memory.rs:904-912 | the link is appended under the next number, which wraps; the invariant is kept exactly when the counter can move on |
| `Engine.MemoryEngine.ImportLink` | crates/thingd/src/in_memory.rs:914-938 | an empty id is invalid, an equal link is accepted unchanged, a different one under the id conflicts, and a new `link-n` raises the counter to n |
| `Engine.MemoryEngine.DeleteLink` | crates/thingd/src/in_memory.rs:946-950 | removes the link with the id, tells whether there was one, keeps the counter |
| `Links.LinkIdRoundTrip` | crates/thingd/src/in_memory.rs:906-932 | the number printed into a created id is the number an import reads from it |
| `Links.CreateIsFresh` | crates/thingd/src/in_memory.rs:904-912 | while the counter bounds every live `link-n`, a created id is free if and only if the counter is below its maximum or `link-0` is free |
| `Links.CreateKeeps` | crates/thingd/src/in_memory.rs:904-912 | a creation keeps ids distinct and bounded by the counter if and only if the counter is below its maximum or no live id is numbered, zero written otherwise than `link-0` aside |
| `Links.IdsStayDistinct` | crates/thingd/src/in_memory.rs:904-950 | throughout an interleaving of creations, imports and deletions ids are distinct and not empty and the counter bounds every live `link-n`, if and only if every creation finds the counter below its maximum or no such id live |
| `Links.DistinctIffNextIsFree` | crates/thingd/src/in_memory.rs:904-950 | in any run, wrapped counters included, ids stay pairwise distinct if and only if no creation comes to a number whose id is live; imports and deletions never break it |
| `Links.CreatedIdIsNew` | crates/thingd/src/in_memory.rs:904-950 | a created id differs from every id that was in the table at any earlier time of the run |
| `Links.ExhaustedCounterCollides` | crates/thingd/src/in_memory.rs:904-938 | the run that imports `link-0` and the largest number and then creates a link ends with two links of one id |
| `Links.WrapThenCollide` | crates/thingd/src/in_memory.rs:904-938 | the run that imports `link-1` and the largest number and then creates two links: the first gets the free `link-0`, the second, at a counter of zero, the id of the live `link-1` |
| `Engine.MemoryEngine.ValidateUniqueIndexes` | crates/thingd/src/in_memory.rs:392-422 | the nested loops admit an object exactly when no unique index of its collection sees its value in another object |
| `Engine.MemoryEngine.ValidateExistingUniqueIndex` | crates/thingd/src/in_memory.rs:424-445 | the scan succeeds exactly when no two objects of the collection share a non-null value of the field |
| `Engine.MemoryEngine.PutObject` | crates/thingd/src/in_memory.rs:73-96 | a conflicting object changes nothing; otherwise version, stamps, object and vector table are updated; the invariant is kept |
| `Engine.MemoryEngine.PutObjectWithOptions` | crates/thingd/src/in_memory.rs:98-120 | a version mismatch changes nothing; zero expects the object to be missing |
| `Engine.MemoryEngine.PutObjectWithSourceMetadata` | crates/thingd/src/in_memory.rs:122-150 | a put that then keeps the source's version and stamps where given; the invariant is kept |
| `Engine.MemoryEngine.DeleteObject` | crates/thingd/src/in_memory.rs:274-281 | removes the object and its vector and tells whether the object was there |
| `Engine.MemoryEngine.CreateIndexDefinition` | crates/thingd/src/in_memory.rs:315-327 | empty names are invalid, a unique index over repeated values conflicts, otherwise it is filed; the invariant is kept |
| `Engine.MemoryEngine.DeleteIndex` | crates/thingd/src/in_memory.rs:337-342 | removes the index and tells whether it was there |
| `Engine.MemoryEngine.AddVector` | crates/thingd/src/in_memory.rs:1171-1175 | sets the entry of the vector table only |
| `Engine.MemoryEngine.RemoveVector` | crates/thingd/src/in_memory.rs:1177-1181 | drops the entry of the vector table only |
| `Objects.UniqueIndexesHold` | crates/thingd/src/in_memory.rs:73-150 | after any run of plain, version-checked and source-metadata writes, deletions and index changes no two objects of a collection share a non-null value under a unique index, whatever the JSON parser |
| `Objects.VersionsGrow` | crates/thingd/src/in_memory.rs:75-82 | without deletions and source-metadata writes an object stays and its version advances by at most one per operation, modulo 2^64; short of wrapping it never falls |
| `Objects.StaleWriterFails` | crates/thingd/src/in_memory.rs:98-120 | after a write that expected a version succeeded, any write of the object expecting the same version fails and changes nothing, whatever fewer than 2^64 - 1 operations come between short of a deletion or a source-metadata write |
| `Objects.ExpectedOfMissing` | crates/thingd/src/in_memory.rs:98-137 | on a missing object a write with options and an expected version succeeds if and only if that version is zero and the indexes admit the object, and a write with source metadata and an expected version always conflicts; a failed write changes nothing |
| `Json.CompareIsTotalPreorder` | crates/thingd/src/in_memory.rs:1343-1354 | the comparison is total and transitive over all JSON values, across numbers rounded to doubles, strings, booleans and printed text, and swapping its arguments reverses it |
| `Json.FilterOperatorsAgree` | crates/thingd/src/in_memory.rs:188-199 | `$gte` is the negation of `$lt`, `$lte` of `$gt`, `$ne` holds exactly when one of `$lt` and `$gt` does, and swapping the sides swaps the operators |
| `Json.RangesSplit` | crates/thingd/src/in_memory.rs:188-199 | a value is in a half-open range exactly when it is in one of its two halves, and never in both, whatever types the bounds have |
| `Like.LikeMatch` | crates/thingd/src/in_memory.rs:1356-1372 | the greedy scan accepts exactly the strings in which the non-empty parts of the pattern occur in order without overlap |
| `Like.GreedyStep` | crates/thingd/src/in_memory.rs:1364-1366 | taking a part at its leftmost place never loses a match of the rest |
| `SqlLike.ScanIsWrappedLike` | crates/thingd/src/in_memory.rs:1356-1372 | for every string and pattern the scan answers as SQL's LIKE does for the pattern with a percent sign added at both ends and underscores taken literally |
| `SqlLike.ScanIsLikeIff` | crates/thingd/src/in_memory.rs:1356-1372 | the scan agrees with SQL's LIKE on every string if and only if the pattern begins and ends with a percent sign and has no underscore |
| `SqlLike.OthersDiffer` | crates/thingd/src/in_memory.rs:1356-1372 | for every other pattern, a string on which they differ |
| `SqlLike.UnderscoreIsOrdinary` | crates/thingd/src/in_memory.rs:1357-1364 | SQL matches ab with a_, the scan does not |
| `RateLimit.RateLimiter.constructor` | crates/thingd-server/src/rate_limit.rs:29-35 | a new limiter has the given budget and no buckets |
| `RateLimit.RateLimiter.Check` | crates/thingd-server/src/rate_limit.rs:38-68 | prune, find or create, refill and spend: the new bucket map and the answer |
| `RateLimit.PruningIsInvisible` | crates/thingd-server/src/rate_limit.rs:38-68 | in any run with a non-decreasing clock every answer is the one a client alone with a limiter that never prunes would get |
| `RateLimit.OnlyOwnRequestsMatter` | crates/thingd-server/src/rate_limit.rs:38-68 | two runs in which a client asks at the same times answer it alike, whatever other clients do |
| `RateLimit.RateIsLimited` | crates/thingd-server/src/rate_limit.rs:48-67 | in any time window of any run a client is granted fewer than max + max * length / minute + 1 requests |
| `RateLimit.BurstIsBounded` | crates/thingd-server/src/rate_limit.rs:48-67 | after any history of a client, of its requests that arrive together exactly as many are granted as its bucket holds then, at most max, and max for a new client |
| `RateLimit.SpacedRequestIsGranted` | crates/thingd-server/src/rate_limit.rs:53-67 | in any run a client's first request, and any request at least minute / max after its previous one, is granted |
| `RateLimit.SteadyClientIsServed` | crates/thingd-server/src/rate_limit.rs:53-67 | in any run a client that asks at least every minute / max is granted, from its first request to its last, more than half of what that time earns |
| `RateLimit.EmptyBucketRecovers` | crates/thingd-server/src/rate_limit.rs:53-67 | an empty bucket grants the next request exactly when a whole token was earned since its last refill |
| `RateSpacing.EvenClientIsGranted` | crates/thingd-server/src/rate_limit.rs:53-67 | in any run, for every max, a client with an empty bucket that asks every d nanoseconds, where d earns at most a token, is granted exactly every p-th request, p being the least number of intervals that earn a token |
| `RateSpacing.BurstEmpties` | crates/thingd-server/src/rate_limit.rs:48-67 | a new client that asks max times at once has such a bucket |
| `RateSpacing.FullRateIff` | crates/thingd-server/src/rate_limit.rs:57-60 | such a client is granted all that the time earns, for every number of requests, if and only if whole intervals make up the time of a token |
| `RateSpacing.HalfRateIsReached` | crates/thingd-server/src/rate_limit.rs:57-60 | half is tight: when one interval earns less than a token and two earn one, exactly every other request is granted |
| `Schema.Canonicalize` | crates/thingd-schema/src/lib.rs:131-150 | the nested in-place sorts produce the canonical document |
| `Schema.CanonicalIffSameUpToOrder` | crates/thingd-schema/src/lib.rs:131-150 | with distinct names at every level, canonical forms are equal if and only if the documents differ only in the order of collections, links, fields and annotations |
| `Schema.CanonIdempotent` | crates/thingd-schema/src/lib.rs:131-150 | canonicalising twice is canonicalising once, for every document |
| `Schema.CanonLosesNothing` | crates/thingd-schema/src/lib.rs:131-150 | the canonical form of every document, whatever its names, is the document up to order |
| `Schema.OrderShows` | crates/thingd-schema/src/lib.rs:136-148 | the sort by name gives every reordering of a list the same result if and only if no two different elements share a name |
| `SchemaOrder.OrderIsInvisibleIff` | crates/thingd-schema/src/lib.rs:131-204 | for a document that validation accepts, every document equal up to order has the same canonical form if and only if no two different links, and no two different annotations of a field, share a name |
| `SchemaOrder.SameLinksTwoForms` | crates/thingd-schema/src/lib.rs:131-204 | two documents that validation accepts, that list the same two links in either order, and whose canonical forms differ |
| `Schema.Validate` | crates/thingd-schema/src/lib.rs:168-204 | accepts exactly the documents with distinct collection and field names, positive vector dimensions and known link ends, and otherwise reports a fault the document has |
| `Framing.ChunkingIsInvisible` | crates/thingd-server/src/rest.rs:1368-1388 | however a body is cut into chunks, the streamed import reaches the state and verdict of splitting the whole body on newlines, unless a whitespace-only line exceeds the limit; an unterminated rest that is not blank is rejected |
| `Framing.LongBlankIsVisible` | crates/thingd-server/src/rest.rs:1372-1388 | every body with a whitespace-only line over the limit has a cut for which it is rejected |
| `Framing.ChunkIndependenceIff` | crates/thingd-server/src/rest.rs:1368-1388 | for every body all cuts give its verdict if and only if no whitespace-only line exceeds the limit or it is rejected whole anyway; for a body accepted whole all cuts reach its state too if and only if there is no such line |
| `SnapshotImport.ImportLine` | crates/thingd-server/src/rest.rs:1389-1408 | one line against the engine: unreadable lines, a missing or unsupported header and error records are rejected |
| `SnapshotImport.ImportRecord` | crates/thingd-server/src/rest.rs:1411-1466 | a record goes to the engine operation of its type, a failure is reported, and accepted records are counted by type |
| `SnapshotImport.DrainLines` | crates/thingd-server/src/rest.rs:1377-1467 | the inner loop terminates, hands on the complete lines of the buffer in order up to the first failure, and leaves the unterminated rest |
| `SnapshotImport.Import` | crates/thingd-server/src/rest.rs:1352-1481 | the outer loop with the end checks is the streamed import of the framing theorem, on the engine |
| `SnapshotExport.PageObjects` | crates/thingd-server/src/rest.rs:1239-1269 | offset paging over a store at rest lists each object of the collection once, in order |
| `SnapshotExport.PageLinks` | crates/thingd-server/src/rest.rs:1271-1288 | offset paging over a store at rest lists each link once, in id order |
| `SnapshotExport.PageEvents` | crates/thingd-server/src/rest.rs:1290-1314 | with any appends and deletions between the pages the cursor loop terminates; what it emits increases strictly, holds every event that is in the log when the last page is read, and holds only events that were in the log when a page was read |
| `SnapshotExport.AppendsAreExported` | crates/thingd-server/src/rest.rs:1290-1314 | with nothing but appends between the pages that is the whole log as it stands when the last page is read, each event once and in order |
| `SnapshotExport.ExportJobs` | crates/thingd-server/src/rest.rs:1316-1332 | queue by queue, all jobs and then the dead ones once more |
| `SnapshotExport.Export` | crates/thingd-server/src/rest.rs:1217-1334 | the export of an engine at rest is the header and then all objects, links, events and jobs |
| `Merge.SnapshotMerges` | crates/thingd-server/src/rest.rs:1231-1481 | importing the exported body of one valid store, cut in any way, into any other is accepted if and only if every record fits the line limit, no unique index of the target blocks an object, and no link of the target has the id of a different link; the target then has its own jobs, links and events, each followed by those it did not have, the snapshot's objects over its own, and its own indexes; records are counted |
| `Merge.MergedIsValid` | crates/thingd-server/src/rest.rs:1352-1481 | the merged store satisfies the engine's invariant |
| `ObjectMerge.AllAdmittedIff` | crates/thingd/src/in_memory.rs:392-422 | putting the objects of a snapshot in its order is never blocked if and only if no two of them share a value of a unique index of the target and none shares one with an object in place under another key that is not replaced before it |
| `ObjectMerge.SwapIsBlocked` | crates/thingd/src/in_memory.rs:392-422 | whenever two objects with different values of a unique field are to be replaced by two that have each other's, target and snapshot both satisfy the index, and the import is rejected all the same |
| `Merge.ImportMerges` | crates/thingd/src/in_memory.rs:914-938 | importing links with distinct ids leaves those in place, adds exactly the new ones in order, and raises the counter as far as their numbers ask |
| `Merge.NewAppended` | crates/thingd/src/in_memory.rs:452-481 | appending events that share no key to any valid log adds exactly those it does not know, in order, under new sequences, and keeps the invariant |
| `Merge.QueuesPhase` | crates/thingd/src/in_memory.rs:552-561 | importing the listed jobs of every queue, the dead ones listed twice, leaves each queue of the target followed by the jobs whose ids it did not have |
| `RoundTrip.SnapshotRoundTrip` | crates/thingd-server/src/rest.rs:1231-1481 | importing an exported body, cut in any way, into an empty engine succeeds if and only if every record fits the line limit; it then restores every queue exactly and in order, every link by id, every event in order numbered from one, and every object's key, body, vector and creation stamp, and counts them |
| `RoundTrip.VectorsSurviveIff` | crates/thingd-server/src/rest.rs:1411-1421 | the vector table comes back as it was if and only if it agreed with the vectors inside the objects |
| `Reimport.AppendedAgain` | crates/thingd/src/in_memory.rs:452-481 | appending a log's own events again adds copies of exactly those without a key, in order, under new sequences |
| `Reimport.ReimportIsIdempotentIffKeyed` | crates/thingd-server/src/rest.rs:1349-1481 | importing a store's snapshot over the store itself changes no queue, link or index, rewrites each object one version on, and leaves the log as it is if and only if every event has an idempotency key |

## Left out

- RateLimit.RateLimiter.Check: the refill is computed exactly, where the program divides doubles and rounds; token counts do not wrap.
- RateLimit.SpacedRequestIsGranted: holds of the exact refill; with max 3125 and a spacing of exactly 19,200,000 nanoseconds the doubles come to 0.9999999999999999 tokens, and an empty bucket denies the request.
- RateLimit.EmptyBucketRecovers: holds of the exact refill; the same input is denied although a whole token was earned.
- RateSpacing.EvenClientIsGranted: holds of the exact refill; where a number of intervals earns a whole token exactly, the doubles can ask for one interval more.
- SnapshotExport.PageObjects: a store that changes between pages, for which offset paging promises nothing.
- SnapshotExport.PageLinks: a store that changes between pages, for which offset paging promises nothing.
- Merge.SnapshotMerges: a target whose 64-bit sequence counter has no room for the events it does not know, where it wraps; what a rejected snapshot leaves behind.
- SnapshotImport.ImportRecord: worker permits, their exhaustion and the worker counters, which depend on scheduling; record counts do not wrap.
- Framing.ChunkIndependenceIff: how much of a body with an overlong blank line is stored before it is rejected, which depends on the cut.
- Error texts and HTTP statuses; only the kind of an error is kept.
- Debug builds, in which a counter that overflows stops the program.
- Link weights that are not a number, and f32 arithmetic; weights and vectors are exact numbers.
- `list_objects` with filters, sort fields and JSON paths as a whole; only the comparison, the operators and `$like` are modelled.
- Search, neighbours, aggregates, time series, vector search and listing by time, which are library floating point or easy scans.
- Stored schemas, migrations and the schema hash.
- The schema grammar and JSON text parsing and printing of numbers, which are parameters.
- The persistent engine, replication, encryption, clustering, the HTTP and MCP handlers, connectors and configuration.
