# Verified model of the Stellar micro-donation API

Dafny models of the stateful and recursive kernels of the API, with proofs over every input, every
run or every interleaving. `dafny verify dfyconfig.toml` checks the whole project.

| file | what it models |
|---|---|
| `Transactions.dfy`, `TransactionStore.dfy`, `DonationTable.dfy` | the in-memory donation store, its idempotency index, conflict rollback and reload, and the table behind it |
| `TransactionFilters.dfy`, `Cursors.dfy`, `Pagination.dfy`, `PageWalk.dfy`, `StoreWalk.dfy` | the filtered, sorted, cursor-paginated listing, and what a client collects while the store changes |
| `Idempotency.dfy`, `RequestHash.dfy` | any number of requests stepping over one reservation table, and the hash of their bodies |
| `CanonicalJson.dfy`, `JsonText.dfy`, `JsonSuffix.dfy`, `Callers.dfy`, `DedupKey.dfy`, `DedupCache.dfy` | canonical JSON, its text, the request fingerprint built from it, and the response cache behind that |
| `RateLimit.dfy` | the exact sliding window and the INCR/EXPIRE fixed window |
| `GraphQLCost.dfy` | query depth and complexity through named fragments |
| `DonationQueue.dfy`, `QueueOverlap.dfy`, `QueueStranding.dfy` | batches of queued donations, bounded retries, no starvation; batches running at the same time, any statement of which can throw |
| `ApiKeys.dfy`, `ApiKeyModel.dfy` | the key table with its TTL cache, status machine and rotation chains |
| `Shutdown.dfy` | the shutdown gate, in-flight counter and drain |
| `SubscriptionBus.dfy` | the bounded per-subscriber event buffer |
| `FieldFilter.dfy`, `FieldProjection.dfy` | projection of responses onto field paths through shared objects |
| `Cidr.dfy` | CIDR membership with signed 32-bit operators |
| `Stroops.dfy` | the amount migrations, one value and whole tables, including re-runs after a crash |
| `Ordering.dfy`, `Text.dfy` | sorting, strict orders, decimal numerals, split and join |

Code that changes state in the program is a class or a loop here, and each of its methods is proved
equal to a specification function; the theorems are lemmas about those functions and about runs of
them. `Server.drains`, `Server.log` and the ghost fields of `Subscriber` are histories only.

## Assumptions

- One database call is one atomic step; it succeeds unless the model has a branch for its failure.
  For API keys one exported operation is one atomic step, and in `DonationQueue` one batch.
- Clocks do not go back, unless a statement says otherwise. Timestamps parse; times are integer milliseconds.
- `localeCompare` and code-unit comparison are strict total orders; they are the parameters `less`.
- Object prototypes are ignored. Strings are sequences of Unicode scalar values; a number is the text
  `Number::toString` gives it.
- Fresh random values (uuids, API-key hashes) are never drawn twice. A SHA-256 digest stands for its text.
- Base64-JSON cursors decode to what was encoded.

## Findings

- *Reload race.* That no two stored donations share an idempotency key is false of a reload that
  overlaps a create: `RacingReloadDuplicatesKey` gives the run, `LoadKeepsIndexedIff` the exact
  condition on the rows that arrive, `ReloadAfterWritesIsSafe` when the table's rows meet it, and
  `RollbackHeals` what the write's conflict error repairs.
- *Orphaned keys.* A conflict on the write of an updated donation removes the donation and leaves its
  key in the index, so later creates answer with a donation that is not stored
  (`CreateThenUpdateOrphansIff` says exactly for which tables; on the store, `RollbackKeepsNamedIff`
  says which rollbacks do).
- *Idempotency rows.* A new request runs the handler exactly when its slot has no row or an expired one
  (`GetsInIff` on its own, `CanGetInIff` and `LiveRowKeepsOut` among any others); the handler runs at
  most once per row (`HandlerStartsOncePerRow`), and again after its expiry, twice at the same time if
  two requests come (`ExpiryLetsTheHandlerRunAgain`, `TwoHandlersAtOnce`).
  The middleware's header promises exactly one execution.
- *Key reuse.* The header of `src/middleware/idempotency.js` (line 25) says the body hash detects one key
  used with different data. It does not: bodies decide nothing but a warning (`BodiesDecideNothing`,
  `WarningHasSource`), and a request that reuses a key gets the other body's answer (`KeyReuseIsNotDetected`).
- *Request hash.* It ignores every nested member whose name the body's top level does not have
  (`NestedMembersAreInvisible`); `SameHashIff` says exactly which bodies share a hash.
- *Callers in the deduplication cache.* The payload names a caller by a text that different callers can
  share: subjects without a key, one header from two subjects, or a header that spells a key's id.
  `ResolveAlikeIff` says exactly which, `SharedIff` that exactly they share responses.
- *Colons in keys.* A key text may hold colons; `PayloadNamesIff` says for which pairs of keys the payload
  still names every request.
- *Second acceptances.* The network can be made to accept a donation again exactly while a query can
  still pick it up or a batch holds it unsent (`MoreAcceptancesIff`). Over a run it is safe from that
  throughout exactly when each query that picked it up found it never accepted and held by no batch
  unsent (`AcceptedOnceIff`). Batches that overlap break this (`OverlapSubmitsTwice`), and so does the
  loss of the update after an accepted submission, unless it was the last attempt
  (`UnrecordedSubmitsTwiceIff`); without both it holds (`UnsharedAcceptedOnce`).
- *Stranded donations.* A donation can stay queued at ten attempts for ever. Over a run this happens
  exactly when some step strands it (`StrandedIff`): a batch counts the last attempt on a stale count, or
  lets go of it with no attempt left, and no other batch can settle it. While no two batches share it,
  only the statement that marks it failed can do this, by throwing or by the batch stopping before it
  (`UnsharedStrandedIff`); no other failed update can.
- *Failed though accepted.* A donation that ends up failed may have been accepted: while no two batches
  share it, exactly when a batch lost its record of that (`FailedWasAcceptedIff`); a batch that shares it
  can also mark it failed after another recorded its acceptance (`SubmittedTurnsFailed`).
- *Grace period zero.* A key rotated without a grace period is answered with one of 30 days (`ValidateMeans`),
  while the next sweep revokes it (`SweepMeans`).
- *Fixed window.* The bound of two limits per sliding window is never reached: it is 2 * limit - 1, and that is tight.
- *Stroops.* The round trip holds for every admissible double arithmetic exactly when |n| < 2^51.
  Re-running `up` is harmless up to the drop of the old table, stuck between drop and rename, and after
  the rename it scales the amounts a second time, although the migration's comment promises to
  tolerate re-runs.
- *Addresses.* Further parts after the fourth are ignored, an empty part reads as zero, and leading zeros
  pass; `ReadAsAddressIff` and `DottedQuadIff` say exactly which texts are read as addresses and which of
  them are dotted quads.

## Model

| member | source | states |
|---|---|---|
| `Transactions.TransitionsMoveForward` | src/utils/transactionStateMachine.js:18-75 | a legal change of status is no change or goes strictly forward in the lifecycle, so statuses never cycle |
| `Transactions.TransitionsIff` | src/utils/transactionStateMachine.js:18-75 | between two states a change is legal exactly when the second comes later in pending, queued, submitted, pending_confirmation, confirmed, failed, save that a queued donation is not confirmed directly; nothing enters or leaves expired |
| `Transactions.NormalizeStateMeans` | src/utils/transactionStateMachine.js:43-50 | a status text stands for itself without blanks and capitals, the two legacy names for the states they became, and no text for pending |
| `TransactionStore.TransactionModel.Create` | src/models/transaction.js:141-204 | creating returns the record the index holds for the key, or stores and indexes a new one; an unknown status throws and changes nothing |
| `TransactionStore.CreateMeans` | src/models/transaction.js:141-184 | which creates throw, which answer with the indexed record, and that any other stores every field of the caller's under its own name, with the defaults |
| `TransactionStore.TransactionModel.UpdateStatus` | src/models/transaction.js:425-487 | the stored copy with its stamp and every field the network's report gives, and the four ways the call throws |
| `TransactionStore.StatusChangeThrowsIff` | src/models/transaction.js:425-451 | a status change throws, and changes nothing, exactly for a missing record, an unknown status or an illegal change |
| `TransactionStore.StatusChangeMeans` | src/models/transaction.js:453-467 | otherwise the stored and returned copy has the status asked for, the clock's stamp or the least after the last one, and the reported transaction id or the old one, and all else is as it was |
| `TransactionStore.ReportedMeans` | src/models/transaction.js:458-464 | each thing the network reports is stored under its own field, and no other field changes |
| `TransactionStore.TransactionModel.UpdateFields` | src/models/transaction.js:489-584 | the other updates replace the record by a copy with only the given fields changed, under a new identity |
| `TransactionStore.FieldChangeMeans` | src/models/transaction.js:489-584 | exactly the given fields of the record are replaced, and a missing record throws |
| `TransactionStore.TransactionModel.OnWriteError` | src/models/transaction.js:65-75 | a conflict takes back exactly the object whose write failed, and its index entry only if it is that object's |
| `TransactionStore.WriteFailedMeans` | src/models/transaction.js:65-75 | something is taken back exactly on a conflict whose object is still stored: that record, its index entry if it is that object's, and nothing else |
| `TransactionStore.TransactionModel.ClearMaps` | src/models/transaction.js:601-604 | a reload starts from empty maps |
| `TransactionStore.TransactionModel.LoadRows` | src/models/transaction.js:90-98 | loaded rows become fresh records, later rows winning |
| `TransactionStore.LoadedStore` | src/models/transaction.js:90-98 | after a load every row's record is stored, field by field as the table had it, and records without a row stay |
| `TransactionStore.IndexedKeysAreUnique` | src/models/transaction.js:25-27 | if the index holds every stored key for its record, no two stored records share a key |
| `TransactionStore.NoNewClash` | src/models/transaction.js:141-184 | no create, update, rollback or clear makes a record lose its index entry to another |
| `TransactionStore.LoadKeepsIndexedIff` | src/models/transaction.js:82-110 | rows arriving keep the index invariant exactly when no two carry one key and no newer record holds the key of a row |
| `TransactionStore.QuietReloadIsSafe` | src/models/transaction.js:601-606 | if nothing is created between clearing and loading, that guard is just that no two rows' records carry one key |
| `TransactionStore.RollbackKeepsNamedIff` | src/models/transaction.js:65-72 | a rollback leaves every index entry naming a stored record exactly when the index held nothing for the removed record but the very object whose write failed |
| `TransactionStore.RunKeepsNamed` | src/models/transaction.js:35-184 | over every run whose rollbacks meet that condition, every index entry names a stored record |
| `DonationTable.UpsertKeepsUnique` | src/models/transaction.js:40-65 | every write keeps the key column unique |
| `DonationTable.UpsertKeepsAgreementIff` | src/models/transaction.js:45-50 | records keep agreeing with their key column exactly when no known id is stored under another key |
| `DonationTable.ReloadAfterWritesIsSafe` | src/models/transaction.js:82-110 | after any writes of that kind a reload during which nothing is created meets the store's guard |
| `DonationTable.ReusedIdSharesKey` | src/models/transaction.js:45-50 | a known id stored under a taken key succeeds and leaves two rows with that key |
| `DonationTable.CreateThenUpdateOrphansIff` | src/models/transaction.js:35-75 | created and updated before its writes answer, a donation leaves its key indexed for a record that is gone, and given to every later create, exactly when its id is new to the table and another donation's row has the key; otherwise nothing is rolled back |
| `TransactionStore.RunKeepsIndexed` | src/models/transaction.js:35-184 | the invariant survives every run of creates, updates, rollbacks and guarded reloads |
| `TransactionStore.EveryRunFromEmpty` | src/models/transaction.js:25-184 | so it holds in every such run of the process |
| `TransactionStore.RacingReloadDuplicatesKey` | src/models/transaction.js:601-606 | a create during an unguarded reload leaves two stored records with one key |
| `TransactionStore.RollbackHeals` | src/models/transaction.js:65-72 | the conflict rollback removes that record's clash and no other record's index entry |
| `TransactionStore.StatusAdvances` | src/models/transaction.js:453-466 | a status change stamps strictly later than before even when the clock went back, moves the status forward, and keeps id, key and timestamp |
| `TransactionStore.UpdatesKeepIdentity` | src/models/transaction.js:425-584 | over any run of updates no record appears, vanishes or changes id, key or timestamp, and its stamp never goes back |
| `TransactionStore.CreateIsIdempotent` | src/models/transaction.js:145-151 | after any creates and updates, creating again under a key returns the first record and changes nothing |
| `TransactionFilters.BuildPredicates` | src/models/transaction.js:285-316 | the list holds exactly the criteria the request gives |
| `Transactions.ContainsIff` | src/models/transaction.js:313-315 | the memo filter's text search finds a text anywhere inside another |
| `TransactionFilters.KeepsMatches` | src/models/transaction.js:281-326 | that list, in either mode, keeps exactly the live records the request describes |
| `Cursors.CursorRoundTrip` | src/models/transaction.js:272-277 | every cursor printed for a row is decoded to that row's time and id, underscores included |
| `Cursors.DecodeCursorMeans` | src/models/transaction.js:272-277 | a plain text without an underscore is no cursor; any other names the number before the first underscore, if it is one, and the id after it |
| `Text.ParseIntMeans` | src/models/transaction.js:275 | blanks, a sign, digits and anything else after them read as the signed value of the digits, and as no number without digits |
| `Cursors.PlainCursorIsNotJson` | src/models/transaction.js:265-272 | base64-decoding a plain cursor gives a first byte that opens no JSON text, so the split path is the one taken |
| `Pagination.SortedMatches` | src/models/transaction.js:319-361 | the page source is strictly ordered and holds exactly the matching records |
| `Pagination.EnumerationIrrelevant` | src/models/transaction.js:281-361 | it does not depend on the order the map hands its values out |
| `Pagination.PastIsSuffix` | src/models/transaction.js:363-371 | the rows past a cursor are the suffix from the first such row, although the cursor's row may be gone |
| `Pagination.FindStart` | src/models/transaction.js:363-371 | the index search finds where the rows past the cursor start |
| `Pagination.SlicePage` | src/models/transaction.js:373-404 | the page is the first rows from there, with a cursor for the last of them exactly when more follow |
| `Pagination.PageMeans` | src/models/transaction.js:264-404 | the page holds matching records older than the cursor's row, or of its instant with a smaller id; newest first, equal instants by descending id; as many as there are up to the limit and to 100; what it leaves out comes after all of it; and its cursor names its last row and the filters exactly when more follow |
| `Pagination.GetCursorPaginated` | src/models/transaction.js:241-405 | the whole call computes that page |
| `PageWalk.WalkIsSteps` | src/models/transaction.js:264-404 | passing cursor texts back and forth is the same walk as passing positions |
| `PageWalk.WalkAscends` | src/models/transaction.js:343-376 | whatever happens to the store between calls, a walk is strictly ordered |
| `PageWalk.WalkReturnsMatches` | src/models/transaction.js:281-376 | every row it returns was a live match in some call's store |
| `PageWalk.NoRecordTwice` | src/models/transaction.js:281-404 | no record is returned twice by a walk over any snapshots in which ids are distinct and timestamps stay |
| `PageWalk.NothingMissed` | src/models/transaction.js:281-404 | a finished walk returned every record present from the start that kept matching |
| `PageWalk.PagesConcatenate` | src/models/transaction.js:281-404 | on a fixed store the pages concatenate to the whole sorted filtered list |
| `StoreWalk.SnapshotsAreStable` | src/models/transaction.js:82-604 | creates, updates, rollbacks, clears and reloads of the store give such snapshots, as long as a record that is stored under an id seen before has the timestamp it had |
| `StoreWalk.NoRecordTwiceInStore` | src/models/transaction.js:82-604 | so a walk between whose calls the store does these returns no record twice and is in order |
| `StoreWalk.NothingMissedInStore` | src/models/transaction.js:82-604 | and, once finished, has returned every record that was stored and matched at every call |
| `Idempotency.Middleware.Reserve` | src/services/IdempotencyService.js:40-49 | the insert wins exactly when the slot has no row |
| `Idempotency.Middleware.Advance` | src/middleware/idempotency.js:54-130 | one awaited call of the middleware is one step of the protocol |
| `Idempotency.Middleware.StoreIdempotencyResponse` | src/middleware/idempotency.js:142-157 | the response is stored in the slot's row |
| `Idempotency.Middleware.CleanupExpiredKeys` | src/services/IdempotencyService.js:242-249 | the deletes are the protocol's cleanup step, change no lookup's answer and no new request's outcome, and are counted |
| `Idempotency.CleanupIsInvisible` | src/services/IdempotencyService.js:242-249 | what they do change is that an expired slot can be reserved again |
| `Idempotency.StepKeepsLife` | src/middleware/idempotency.js:54-130 | from the insert of a row until it expires every step keeps at most one holder among the requests that had not called reserve before it |
| `Idempotency.HandlerStartsOncePerRow` | src/middleware/idempotency.js:54-130 | in every run, from any moment at which a slot has no row until its next row expires, the handler starts at most once among those requests |
| `Idempotency.HandlerRunsAtMostOnce` | src/middleware/idempotency.js:54-130 | hence at most once in every interleaving in which the slot's row does not expire |
| `Idempotency.LateRequestGetsIn` | src/middleware/idempotency.js:83-105 | a request that lost its reservation to a row since expired or gone runs the handler without one of its own |
| `Idempotency.OthersConflictOrReplay` | src/middleware/idempotency.js:56-105 | every other request of the slot ends in a 409 or replays exactly what the executing request stored |
| `Idempotency.ReplayHasSource` | src/middleware/idempotency.js:51-64 | in every run, expiry and cleanup included, a replayed response was stored by a handler of the same API key and idempotency key |
| `Idempotency.GetsInIff` | src/middleware/idempotency.js:54-130 | in every state a new request that meets no other runs the handler exactly when its slot has no row or an expired one, is a 409 over a pending row, and replays a completed one |
| `Idempotency.ResumedEndsAsRowSays` | src/middleware/idempotency.js:54-105 | in every state and at every call up to the test after a lost reservation, a request that meets no other from there on runs the handler over no row or an expired one, is a 409 over a pending row, and replays a completed one |
| `Idempotency.LiveRowKeepsOut` | src/middleware/idempotency.js:54-105 | in every interleaving, over a live row and until it expires, a request that had not called reserve never runs the handler and ends, if it does, in a 409 or a stored response |
| `Idempotency.CanGetInIff` | src/middleware/idempotency.js:54-130 | in every state some interleaving without an expiry lets a new request into the handler exactly when its slot has no live row |
| `Idempotency.AloneOverExpired` | src/services/IdempotencyService.js:40-70 | over an expired row the reservation fails, both lookups pass, and the request runs the handler |
| `Idempotency.TwoHandlersAtOnce` | src/middleware/idempotency.js:66-105 | after any run that leaves an expired row two new requests with its key run the handler at the same time |
| `Idempotency.ExpiryLetsTheHandlerRunAgain` | src/services/IdempotencyService.js:40-70 | such runs follow every run in which the slot has no row |
| `Idempotency.KeyReuseIsNotDetected` | src/middleware/idempotency.js:54-105 | one key with two different bodies: the second request is a 409 or is given the first body's response |
| `Idempotency.BodiesDecideNothing` | src/middleware/idempotency.js:54-130 | changing every body of a run changes no status, response or handler start |
| `Idempotency.WarningHasSource` | src/middleware/idempotency.js:107-119 | in every run a warned request's body had been sent by another request of the same API key under another key, for which a handler stored a response |
| `RequestHash.ListedIsCanon` | src/services/IdempotencyService.js:25-28 | printing with the body's sorted keys as property list prints the sorted value without the nested members that list does not name |
| `RequestHash.SameHashIff` | src/services/IdempotencyService.js:25-28 | two bodies have one hash text exactly when they are one value, key order aside, after that loss |
| `RequestHash.FlatBodiesAreToldApart` | src/services/IdempotencyService.js:25-28 | without nested objects, exactly when they are one value |
| `RequestHash.NestedMembersAreInvisible` | src/services/IdempotencyService.js:25-28 | whatever a nested object holds under other names changes nothing |
| `CanonicalJson.CanonKeepsMeaning` | src/middleware/deduplication.js:43-52 | sorting keys at every level changes the order of keys and nothing else |
| `CanonicalJson.CanonicalForm` | src/middleware/deduplication.js:43-52 | two values sort to one form exactly when they are one value up to key order, integer-like keys included |
| `CanonicalJson.CanonInOrder` | src/config/openapi.js:235-247 | at every level keys come in order, the integer-like ones of a rebuilt object first and by number |
| `CanonicalJson.SortObjectKeysIsStable` | src/config/openapi.js:235-247 | sorting the specification twice is sorting it once, and the result depends only on the value |
| `JsonText.PrintReadsBack` | src/middleware/deduplication.js:54 | printed JSON can be read back in only one way, whatever text follows |
| `JsonText.SameTextIffSameValue` | src/middleware/deduplication.js:39-55 | two object or array bodies get one text exactly when they are one value up to key order |
| `JsonText.SharedTextIff` | src/middleware/deduplication.js:39-55 | an object or array shares its text with the values of its meaning and with one string, and nothing else |
| `JsonSuffix.NoProperSuffix` | src/middleware/deduplication.js:54-68 | no proper suffix of a printed object or array is one |
| `Callers.ResolveApiKey` | src/middleware/deduplication.js:113-116 | the chain of fallbacks gives the caller's text |
| `Callers.ResolveAlikeIff` | src/middleware/deduplication.js:113-116 | two callers share that text exactly when they are alike: a key id and a text that spells it, one text as key and header, one header from two subjects, or two subjects without a key |
| `Callers.DifferentCallersCanBeAlike` | src/middleware/rbac.js:346-366 | two bearer subjects, and a key and a header spelling its id, are different and alike |
| `DedupKey.PayloadNamesTheRequest` | src/middleware/deduplication.js:67-70 | for keys that lie apart two requests share a payload exactly when alike callers send one verb, path and JSON body, whatever the paths contain |
| `DedupKey.KeysWithoutColonAreApart` | src/middleware/deduplication.js:67-70 | keys without a colon lie apart |
| `DedupKey.PayloadNamesIff` | src/middleware/deduplication.js:67-70 | the payload names every pair of two callers' requests exactly when neither key text extends the other by a colon, a verb and a colon or the end |
| `DedupCache.Deduplicator.EvictExpired` | src/middleware/deduplication.js:73-78 | exactly the expired entries go |
| `DedupCache.Deduplicator.Middleware` | src/middleware/deduplication.js:100-146 | pass, replay or wrap, and the new cache |
| `DedupCache.Deduplicator.InterceptJson` | src/middleware/deduplication.js:131-143 | the first answer of a wrapped response is stored if it is a success |
| `DedupCache.Deduplicator.ClearCache` | src/middleware/deduplication.js:84-86 | nothing is left to replay |
| `DedupCache.PassesIff` | src/middleware/deduplication.js:100-107 | a request passes untouched exactly when its method is none of POST, PUT, PATCH and DELETE or it carries an idempotency key |
| `DedupCache.AnswerKeptIff` | src/middleware/deduplication.js:131-143 | exactly a first answer with a status from 200 to 299 is kept, for the request's lifetime |
| `DedupCache.RequestIsDecided` | src/middleware/deduplication.js:109-146 | in every run a request is replayed exactly when the latest success captured under its payload has not outlived its window, and then with that response |
| `DedupCache.ReplayIsAnAlikeCallers` | src/middleware/deduplication.js:100-146 | what is replayed was given, less than one window ago, to an alike caller for the same verb, path and JSON body |
| `DedupCache.ReplayIsTheCallersOwn` | src/middleware/deduplication.js:100-146 | and to the same caller, if no other caller of the run is alike |
| `DedupCache.SharedIff` | src/middleware/deduplication.js:113-143 | a success given to one request is replayed to another within its window exactly when they are the same request from alike callers |
| `DedupCache.OthersResponseIsReplayed` | src/middleware/deduplication.js:113-126 | so one keyless subject is replayed another's response, and a header spelling a key's id is replayed that key's |
| `RateLimit.MemoryRateLimitStore.IncrementAndCheck` | src/middleware/RateLimitStore.js:18-36 | the verdict and the new timestamps of the key; other keys untouched |
| `RateLimit.MemoryRateLimitStore.Clear` | src/middleware/RateLimitStore.js:38 | every key starts afresh |
| `RateLimit.SlideDecides` | src/middleware/RateLimitStore.js:18-36 | a call is allowed exactly when fewer than the limit were allowed in the window ending with it; the count it reports is that window's, what is left is the rest of the limit, and resetAt is one window after the oldest of them |
| `RateLimit.RunIsExact` | src/middleware/RateLimitStore.js:18-36 | after any run a call is decided by the earlier allowed calls in its window and by nothing else |
| `RateLimit.SlidingWindowTheorem` | src/middleware/RateLimitStore.js:18-36 | in every run every interval (t - w, t] holds at most the limit of allowed calls |
| `RateLimit.DenialTellsWhen` | src/middleware/RateLimitStore.js:26-31 | after a denial, resetAt is exactly the first instant at which a call would be allowed |
| `RateLimit.RedisRateLimitStore.IncrementAndCheck` | src/middleware/RateLimitStore.js:55-72 | the script's counter, expiry and verdict for the key; other keys untouched |
| `RateLimit.ScriptMeans` | src/middleware/RateLimitStore.js:57-72 | the count is one more than an open window's or one, the verdict, what is left and the end of the window follow from it |
| `RateLimit.RunIsCounted` | src/middleware/RateLimitStore.js:57-62 | over every run the counter is exactly the number of calls, refused ones included, since its window was opened |
| `RateLimit.FixedWindowTheorem` | src/middleware/RateLimitStore.js:57-72 | each fixed window grants at most the limit and every sliding interval of one length at most 2 * limit - 1 |
| `RateLimit.FixedWindowBoundIsTight` | src/middleware/RateLimitStore.js:57-72 | a run reaches 2 * limit - 1 |
| `GraphQLCost.BuildFragmentMap` | src/graphql/index.js:79-87 | each fragment name is bound to the body of its last definition, and no other name is |
| `GraphQLCost.GetQueryDepth` | src/graphql/index.js:101-131 | the recursive loop ends, on cyclic documents too, with the depth of the selection set |
| `GraphQLCost.ComputeComplexity` | src/graphql/index.js:170-200 | likewise for complexity |
| `GraphQLCost.SetMeasures` | src/graphql/index.js:101-200 | on every document, depth is the longest path and complexity the total weight of the paths of the query with spreads resolved |
| `GraphQLCost.WeightIsPower` | src/graphql/index.js:49-51 | a field weighs the list cost to the power of the fields among it and those above it that are one of the four list fields |
| `GraphQLCost.DocumentPathsAre` | src/graphql/index.js:141-217 | what is measured are the fields of every operation of the document, and of fragments only where they are spread |
| `GraphQLCost.MeasuresOfInlinedQuery` | src/graphql/index.js:101-200 | on an acyclic document both are those of the query with every fragment inlined, the weight of a field being its own cost times its ancestors' |
| `GraphQLCost.CheckDepth` | src/graphql/index.js:141-152 | a document passes exactly when no field, fragments resolved, lies deeper than the limit |
| `GraphQLCost.CheckComplexity` | src/graphql/index.js:208-218 | the reported complexity is the total weight of all fields of all operations |
| `DonationQueue.Database.ProcessOne` | src/jobs/processDonationQueue.js:53-113 | one donation is recorded as submitted, or counted and at the last attempt failed, whichever of the three updates throws, and when the exception leaves |
| `DonationQueue.Database.ProcessBatch` | src/jobs/processDonationQueue.js:27-117 | a batch changes exactly the donations it comes to, each once, and throws exactly when one of them does; otherwise it comes to all and counts them; an open breaker changes nothing |
| `DonationQueue.BatchMeans` | src/jobs/processDonationQueue.js:52-113 | each donation up to the first that makes the batch throw is recorded: submitted under the network's hash with one more attempt, or counted and failed exactly at the tenth; those after it keep their rows |
| `DonationQueue.BatchTouchesOnly` | src/jobs/processDonationQueue.js:35-42 | a donation that is not queued, deleted, out of attempts or not in the batch keeps its row |
| `DonationQueue.CountAcceptedIs` | src/jobs/processDonationQueue.js:79-116 | the reported successes are the batch's donations that were accepted and recorded |
| `DonationQueue.BatchKeepsBoundedIff` | src/jobs/processDonationQueue.js:81-113 | attempts never exceed ten and nothing stays queued at ten, exactly when the statement that marks a donation failed does not throw |
| `DonationQueue.RunStaysBounded` | src/jobs/processDonationQueue.js:27-129 | the same over every run, whatever else throws, so the queue depth counts only donations still to be tried |
| `DonationQueue.NoStarvation` | src/jobs/processDonationQueue.js:35-113 | with k others at least as old, a donation can no longer be picked once n batches of size b have come to their end with n * b >= 10 * (b + k), however many newer ones arrive and however many batches throw |
| `DonationQueue.LeavesWithinTenPerDonation` | src/jobs/processDonationQueue.js:35-113 | so 10 * (k + 1) complete batches are always enough, and it has left `queued` if nothing is queued at ten |
| `DonationQueue.LeavesQueued` | src/jobs/processDonationQueue.js:35-113 | and it has left `queued`, if other writers keep to the bound on attempts and no marking throws |
| `DonationQueue.FailedAttemptStrandsIff` | src/jobs/processDonationQueue.js:82-97 | a failed attempt strands a donation exactly when it is the last one and counted, and the count it read is stale or the statement that marks it failed throws |
| `QueueOverlap.MoreAcceptancesIff` | src/jobs/processDonationQueue.js:34-113 | in every state some continuation has the network accept the donation once more exactly when it can still be picked up or some batch holds it unsent |
| `QueueOverlap.OnceIff` | src/jobs/processDonationQueue.js:52-113 | until it is picked up again it is accepted at most once, whatever happens, exactly when its acceptances and the batches holding it unsent are one at most together |
| `QueueOverlap.AcceptedOnceIff` | src/jobs/processDonationQueue.js:34-113 | over every run, whatever overlaps and throws, it is safe from a second acceptance throughout exactly when every query that picked it up found it never accepted and held by no batch unsent |
| `QueueOverlap.AcceptedAtMostOnce` | src/jobs/processDonationQueue.js:34-113 | in every such run it is accepted at most once |
| `QueueOverlap.CanBePickedIff` | src/jobs/processDonationQueue.js:35-42 | a query can pick a donation up exactly when it is queued, not deleted and has had fewer than ten attempts |
| `QueueStranding.LeavesQueueIff` | src/jobs/processDonationQueue.js:34-113 | in every state a queued donation can still leave the queue exactly when a query can pick it up or some batch can settle it |
| `QueueStranding.StrandedIff` | src/jobs/processDonationQueue.js:34-113 | over every run, whatever overlaps and throws, a donation that could be picked at its start ends up queued for good exactly when some step uses up its last attempt on a stale count, or lets go of it with no attempt left, while no other batch can settle it |
| `QueueStranding.UnheldIsFinal` | src/jobs/processDonationQueue.js:35-113 | a donation that no query picks and no batch holds keeps its row, and its acceptances, for ever |
| `QueueStranding.UnsharedStrandedIff` | src/jobs/processDonationQueue.js:82-97 | over every run in which no two batches share it, it ends up queued for good exactly when the statement that marks it failed is lost |
| `QueueStranding.UnsharedAcceptedOnce` | src/jobs/processDonationQueue.js:52-72 | over every such run in which no record of an acceptance is lost it is accepted at most once |
| `QueueStranding.AcceptedIff` | src/jobs/processDonationQueue.js:57-72 | over every run it is accepted exactly when some batch came to write that down or to lose it, or still has it to write |
| `QueueStranding.FailedWasAcceptedIff` | src/jobs/processDonationQueue.js:66-97 | over every run in which no two batches share it, a donation that ends up failed was accepted exactly when a batch lost the record of that |
| `QueueStranding.OnItsOwn` | src/jobs/processDonationQueue.js:53-113 | a batch on its own, whichever of its statements throw, does to a donation what the model of one batch says |
| `QueueStranding.OverlapSubmitsTwice` | src/jobs/processDonationQueue.js:35-72 | two batches that both pick a donation up can have it accepted twice, and the later hash stays |
| `QueueStranding.UnrecordedSubmitsTwiceIff` | src/jobs/processDonationQueue.js:66-97 | after an accepted submission whose update throws it can be accepted again exactly when that was not the last attempt |
| `QueueStranding.LoneStrandsIff` | src/jobs/processDonationQueue.js:81-97 | one batch on its own strands a donation exactly when its last attempt fails and the statement that marks it failed throws |
| `QueueStranding.OverlapStrands` | src/jobs/processDonationQueue.js:82-97 | two batches that both fail a donation strand it exactly when it stood at eight attempts |
| `QueueStranding.SubmittedTurnsFailed` | src/jobs/processDonationQueue.js:66-97 | two batches at the last attempt: one records its acceptance, the other then counts an eleventh and marks it failed |
| `ApiKeyModel.Model.GetCachedKey` | src/models/apiKeys.js:26-36 | a live entry's value; an entry past its time is dropped |
| `ApiKeyModel.Model.SetCachedKey` | src/models/apiKeys.js:43-48 | the entry lives one TTL, as configured |
| `ApiKeyModel.Model.InvalidateCachedKey` | src/models/apiKeys.js:54-56 | one entry goes |
| `ApiKeyModel.Model.InvalidateAllCachedKeys` | src/models/apiKeys.js:61-63 | all entries go |
| `ApiKeyModel.Model.CreateApiKey` | src/models/apiKeys.js:130-189 | an active row under a new id |
| `ApiKeyModel.Model.ValidateApiKey` | src/models/apiKeys.js:198-264 | the cached answer, or the table's answer with quota reset, last use and cache entry recorded |
| `ApiKeys.ValidateAnswersIff` | src/models/apiKeys.js:198-264 | without a live cached value the answer is non-null exactly when a row has the hash, is not revoked, and has no expiry or one not before now; it is cached for one TTL, null included |
| `ApiKeys.ValidateMeans` | src/models/apiKeys.js:229-262 | the answer's columns are the row's, with zero uses and the next reset instant exactly when the quota is due, and now as the last use; the row changes in the same way and no other row does |
| `ApiKeyModel.Model.DeprecateApiKey` | src/models/apiKeys.js:339-356 | only an active key changes, and its cache entry goes |
| `ApiKeyModel.Model.RevokeApiKey` | src/models/apiKeys.js:365-382 | any key not yet revoked is revoked, and its cache entry goes |
| `ApiKeyModel.Model.UpdateApiKey` | src/models/apiKeys.js:391-404 | only the columns that may be set change, nothing does without one of them, and status and hash never do |
| `ApiKeyModel.Model.RotateApiKey` | src/models/apiKeys.js:431-461 | a new active key, the old one deprecated and linked to it, due for the sweep at the returned instant |
| `ApiKeyModel.Model.RevokeExpiredDeprecatedKeys` | src/models/apiKeys.js:469-481 | exactly the keys past their grace period are revoked |
| `ApiKeyModel.Model.IncrementQuota` | src/models/apiKeys.js:522-545 | one use is counted in one statement, with the new count and what is left; a missing key throws |
| `ApiKeyModel.Model.CleanupOldKeys` | src/models/apiKeys.js:412-420 | exactly the long-revoked rows go |
| `ApiKeyModel.Model.ExtendApiKey` | src/models/apiKeys.js:677-701 | the expiry moves from the old one on and the cache entry goes; a missing and a revoked key are told apart |
| `ApiKeys.StepKeepsTable` | src/models/apiKeys.js:65-93 | hashes stay unique and a rotation link points to a greater id |
| `ApiKeys.RunStatusMovesForward` | src/models/apiKeys.js:339-481 | along every run a status goes only active, deprecated, revoked, and an id is never reused |
| `ApiKeys.AnswersAreFresh` | src/models/apiKeys.js:10-264 | for every configured TTL, every non-null answer is what the table gives now or gave at some instant at most one TTL ago |
| `ApiKeys.RevokedForGood` | src/models/apiKeys.js:365-382 | once a revocation succeeded every later answer for that key is null |
| `ApiKeys.RevokedWithinTtl` | src/models/apiKeys.js:469-481 | for every configured TTL, however a key was revoked, its answers are null from one TTL later on |
| `ApiKeys.ExpiredWithinTtl` | src/models/apiKeys.js:224-227 | over every run, past a key's expiry and one TTL past it its answers are null, whatever the cache holds |
| `ApiKeys.CreateMeans` | src/models/apiKeys.js:142-163 | a new key is active and unused, with what was asked for in its columns |
| `ApiKeys.DeprecateMeans` | src/models/apiKeys.js:339-356 | exactly an active key is deprecated and stamped, and only its cache entry dropped |
| `ApiKeys.RevokeMeans` | src/models/apiKeys.js:365-382 | exactly a key not revoked is revoked and stamped, and only its cache entry dropped |
| `ApiKeys.RotateMeans` | src/models/apiKeys.js:431-461 | exactly a key not revoked is rotated: a new active row, and the old one deprecated, linked and otherwise kept |
| `ApiKeys.ExtendMeans` | src/models/apiKeys.js:677-701 | whole days are added to the expiry, or to now without one |
| `ApiKeys.UpdateMeans` | src/models/apiKeys.js:391-404 | of the given columns exactly the six that may be set change |
| `ApiKeys.SweepMeans` | src/models/apiKeys.js:469-481 | exactly the deprecated keys past their grace period, in days, are revoked |
| `ApiKeys.CleanupMeans` | src/models/apiKeys.js:412-420 | exactly the keys revoked before the retention period are deleted |
| `ApiKeys.IncrementMeans` | src/models/apiKeys.js:522-535 | one use is counted on one row |
| `ApiKeys.ChainsAreFinite` | src/models/apiKeys.js:431-461 | ids grow along every rotation chain, so it is finite |
| `ApiKeys.RotationSetsDeadline` | src/models/apiKeys.js:448-460 | rotating sets the sweep's deadline to the announced autoRevokeAt |
| `ApiKeys.SweepIsExact` | src/models/apiKeys.js:469-481 | no sweep revokes a rotated key before its latest deadline, and the first one at or after it does |
| `Shutdown.Server.OnRequest` | src/bootstrap/middleware.js:49-60 | a request is admitted and counted exactly when no shutdown has begun; later ones are refused, health probes passed on uncounted |
| `Shutdown.Server.OnResponseOver` | src/bootstrap/middleware.js:61-70 | finish and close count down once between them |
| `Shutdown.Server.OnSignal` | src/bootstrap/server.js:261-306 | only the first signal starts a drain |
| `Shutdown.Server.OnTick` | src/bootstrap/server.js:310-322 | the wait ends when the counter is down to zero |
| `Shutdown.Server.OnServerClosed` | src/bootstrap/server.js:306-310 | the wait begins once the server has closed |
| `Shutdown.Server.OnProceed` | src/bootstrap/server.js:326-398 | one drain action is done and the next begins; the timer is cleared after the schedulers |
| `Shutdown.Server.OnTimeout` | src/bootstrap/server.js:277-286 | an armed force timer exits with 1 |
| `Shutdown.CounterIsExact` | src/bootstrap/middleware.js:49-72 | in every interleaving the counter equals the admitted requests not yet finished or closed |
| `Shutdown.NoAdmissionAfterSignal` | src/bootstrap/middleware.js:50-57 | once shutdown has begun it never rises |
| `Shutdown.DrainIsSafe` | src/bootstrap/server.js:261-399 | every run does webhook flush, scheduler stop, WAL checkpoint, audit flush, database close and exit(0) in that order, each at most once and with no admitted request open; any number of signals starts one drain |
| `Shutdown.TimeoutForcesExitIff` | src/bootstrap/server.js:277-340 | in every run the force timer ends the process with 1 exactly from the first signal until the schedulers are stopped |
| `Shutdown.CleanDrainExits` | src/bootstrap/server.js:309-398 | a waiting drain whose timer does not fire reaches exit(0) with all of them done in every run that polls once with no admitted request open and finishes six actions after that, whatever comes between |
| `SubscriptionBus.Subscriber.Listener` | src/graphql/pubsub.js:55-67 | an event goes to the oldest pending pull or into the buffer, dropping the oldest event when full |
| `SubscriptionBus.Subscriber.NextEvent` | src/graphql/pubsub.js:75-83 | a buffered event, the end, or a pending pull |
| `SubscriptionBus.ListenMeans` | src/graphql/pubsub.js:55-67 | an event goes to the pull that waited longest, else into the buffer; exactly at 100 buffered events the oldest is dropped |
| `SubscriptionBus.PullMeans` | src/graphql/pubsub.js:75-83 | a pull gets the oldest buffered event, the end after return, or waits behind the others |
| `SubscriptionBus.FinishMeans` | src/graphql/pubsub.js:84-92 | every waiting pull ends, in order, the buffer stays, and a second return does nothing |
| `SubscriptionBus.Bus.PublishTo` | src/graphql/pubsub.js:33-39 | every listener of the topic gets the event once, and nobody else; listeners stay registered and live |
| `SubscriptionBus.Bus.AsyncIterator` | src/graphql/pubsub.js:47-72 | a fresh live subscriber is registered under its topic |
| `SubscriptionBus.Bus.ReturnIterator` | src/graphql/pubsub.js:84-92 | it is unregistered and its pending pulls end; those left registered are live |
| `SubscriptionBus.BusTheorem` | src/graphql/pubsub.js:47-97 | in every interleaving pulls and buffer are never both non-empty, the buffer is at most 100 events and a suffix of what was published, deliveries are in order with none twice, and every event is delivered, dropped or buffered |
| `SubscriptionBus.NothingLostWithoutOverflow` | src/graphql/pubsub.js:55-67 | if the buffer never overflowed, deliveries and buffer are exactly what was published |
| `SubscriptionBus.PullsAreServedInOrder` | src/graphql/pubsub.js:55-83 | until return, the k-th pull gets the k-th delivery |
| `FieldFilter.JsHeap.GetNestedValue` | src/middleware/fieldFilter.js:47-56 | the loop reads the value at the path |
| `FieldFilter.GetMeans` | src/middleware/fieldFilter.js:47-56 | a path leads through properties, and to nothing from a value that is no object or lacks the property |
| `FieldFilter.JsHeap.SetNestedValue` | src/middleware/fieldFilter.js:65-75 | the loop writes at the path, making missing objects on the way |
| `FieldFilter.JsHeap.FilterObject` | src/middleware/fieldFilter.js:84-97 | the loop over the paths is the projection |
| `FieldFilter.FilterOneMeans` | src/middleware/fieldFilter.js:84-97 | scalars and arrays come back as they are, and an object as a new object that is no array |
| `FieldFilter.JsHeap.FilterData` | src/middleware/fieldFilter.js:116-117 | elements are filtered one after the other |
| `FieldProjection.FilterObjectTheorem` | src/middleware/fieldFilter.js:84-97 | for any list of paths the result has every requested value, nothing off the requested paths, and the input is unchanged although it is shared |
| `FieldProjection.FilterItemsTheorem` | src/middleware/fieldFilter.js:114-119 | the same for every element of a list, even when elements share objects or occur twice |
| `Cidr.PackIsAddress` | src/middleware/geoBlock.js:161-162 | shifting and or-ing octets in signed 32 bits gives the address |
| `Cidr.MaskedAddress` | src/middleware/geoBlock.js:153-164 | masking drops exactly the host part |
| `Cidr.MembershipIsPrefixEquality` | src/middleware/geoBlock.js:145-168 | for all dotted quads and prefixes, and every reading of numbers that agrees with Number on digits, membership holds exactly when both addresses have one quotient by 2^(32 - prefix) (section 3.1 of RFC 4632) |
| `Cidr.LongerPrefixIsNarrower` | src/middleware/geoBlock.js:145-168 | belonging to a longer prefix implies belonging to every shorter one |
| `Cidr.InCidrIff` | src/middleware/geoBlock.js:145-168 | for all texts, an address is in an entry exactly when the entry has a slash, what follows it is not empty and reads as a prefix length from 0 to 32, and the address and what precedes it read as addresses that agree in so many leading bits |
| `Cidr.WithoutRangesOnlyListed` | src/middleware/geoBlock.js:117-137 | over entries without a slash exactly the addresses listed literally are allowlisted |
| `Cidr.ReadAsAddressIff` | src/middleware/geoBlock.js:154-159 | a text is read as an address exactly when it is four octets and any further parts joined by dots |
| `Cidr.DottedQuadIff` | src/middleware/geoBlock.js:154-159 | a text so read is its dotted quad exactly when it has four parts, each a numeral without leading zeros |
| `Cidr.FurtherPartsAreIgnored` | src/middleware/geoBlock.js:154 | whatever follows a dotted quad and a dot changes nothing |
| `Cidr.EmptyPartsReadAsZero` | src/middleware/geoBlock.js:154-159 | leaving any of the four parts empty reads it as zero |
| `Cidr.IsIPAllowlisted` | src/middleware/geoBlock.js:117-137 | listed literally or in some listed range |
| `Cidr.ShouldBlock` | src/middleware/geoBlock.js:239-291 | the allowlist wins; without a country, blocked only in strict mode with active rules and no database; otherwise the country lists decide, allow first |
| `Stroops.RoundTripWithin` | src/migrations/021_amount_precision_stroops.js:33-36 | down then up returns every amount below 2^51, given relative errors of at most 2^-53 and rounding to a nearest integer |
| `Stroops.RoundTripIff` | src/migrations/021_amount_precision_stroops.js:112-119 | and from 2^51 on some admissible arithmetic does not |
| `Stroops.ScaledMeans` | src/migrations/021_amount_precision_stroops.js:33-36 | whichever unit the column holds, `up` makes of it the nearest whole number to ten million times it, but for one rounding |
| `Stroops.UnscaledMeans` | src/migrations/021_amount_precision_stroops.js:112-119 | and `down` its ten-millionth part, but for one rounding |
| `Stroops.UpConverts` | src/migrations/021_amount_precision_stroops.js:20-83 | `up` converts every amount and keeps every other column and row |
| `Stroops.DownConverts` | src/migrations/021_amount_precision_stroops.js:85-130 | so does `down` |
| `Stroops.TableRoundTripIff` | src/migrations/038_pledges_amount_stroops.js:14-109 | a whole table survives down and up, under every admissible arithmetic, exactly when all its amounts are below 2^51 |
| `Stroops.RerunIsTolerated` | src/migrations/021_amount_precision_stroops.js:21-71 | stopped anywhere before the old table is dropped, running `up` again gives what one full run gives |
| `Stroops.RerunIsStuck` | src/migrations/021_amount_precision_stroops.js:73-74 | stopped between drop and rename, every further run fails and the converted rows stay where they are |
| `Stroops.RerunAfterRenameScalesAgain` | src/migrations/021_amount_precision_stroops.js:74-80 | stopped after the rename, a second run keeps an amount exactly when it is zero |
| `Stroops.Migration.FillRows` | src/migrations/038_pledges_amount_stroops.js:19-21 | the UPDATE fills the new column of every row |
| `Stroops.Migration.CopyRows` | src/migrations/038_pledges_amount_stroops.js:40-48 | the INSERT carries every row over |
| `Stroops.Migration.Perform` | src/migrations/038_pledges_amount_stroops.js:14-63 | one statement, or nothing when it fails |
| `Stroops.Migration.Apply` | src/migrations/038_pledges_amount_stroops.js:14-109 | a script runs to its end or to its first failing statement |

## Left out

- Pagination.GetCursorPaginated: covers the default sort and limits from zero on; under another sort the cursor's test still follows the default order, so the walk statements do not hold there, and a negative limit cuts from the end.
- The filters an encoded cursor carries, which the code stores and never reads back; `offset` pagination; a page limit of zero in the walk statements.
- Event emitters and tag association; the data fields of a donation that nothing here depends on are one map of texts.
- StoreWalk.NoRecordTwiceInStore: takes as a premise that no record is stored under the id of an earlier one with another timestamp; a caller of `create` can choose both.
- Rows of a null API key in the idempotency table, where the UNIQUE pair does not bind; `conditionalIdempotency`, which never reserves; the replay's two extra response fields.
- Idempotency.HandlerRunsAtMostOnce: is limited to runs in which the slot's row does not expire, because it is false otherwise; `HandlerStartsOncePerRow` and `CanGetInIff` cover every run.
- The body of `requireIdempotency` as one method: other requests move at each of its awaits, so it is a step relation and a method that runs to the next await.
- Lone surrogates in JSON strings, `toJSON`, and bodies that are neither absent nor an object nor an array in `DedupKey`, which the mounted parsers do not deliver; an absent body in `RequestHash`, for which the code throws.
- TransactionStore.RunKeepsIndexed: guards each reload, because the unguarded statement is false (`RacingReloadDuplicatesKey`).
- TransactionStore.RunKeepsNamed: guards each rollback, because the unguarded statement is false (`CreateThenUpdateOrphansIff`).
- DonationTable.CreateThenUpdateOrphansIff: takes one update, and write errors other than the key's conflict as absent; those roll nothing back.
- DonationTable.ReloadAfterWritesIsSafe: takes the writes in one order; the UNIQUE Stellar transaction id is not modelled.
- Redis failures, the eval retry and the fail-open policy; a limit that changes during a run.
- GraphQL schema types, introspection and directives; only the cost measures are modelled.
- DonationQueue.Database.ProcessBatch: takes the answer of its query as a parameter, and no other writer touches the batch's rows while it runs.
- DonationQueue.RunStaysBounded: takes it as a premise of the run that other writers keep to the bound and that no statement marking a donation failed throws; without the second it is false (`BatchKeepsBoundedIff`, `LoneStrandsIff`).
- QueueOverlap.AcceptedAtMostOnce: models no writers of the table but the batches; a submission whose answer is lost counts as rejected.
- Interleavings inside one API-key operation, quota notices and the reset job; `getNextMonthFirstDay` is a parameter; the columns of a key that are only read back are one map of texts.
- Sockets, SSE streams, the timer's unref and the individual services stopped during a drain (they are one action); the drain's awaited steps are assumed to end.
- `filteredIterator`, which repeats `next` until an event passes its filter.
- `applyFilter`'s envelope copy, path validation and blocked fields: the lists of segments are inputs, and only the array and object cases of the data are modelled.
- Cidr.IsIPInCIDR: takes `Number` as a parameter, of which only octets and, where it says so, agreement on runs of digits are used.
- `normalizeIp`, the GeoIP lookup, and building the country sets: their results are parameters.
- Lower case of letters other than A to Z, in statuses and in the memo filter.
- NULL amounts, integer overflow in SQLite, underflow of doubles, the tenant column and the indexes of the migrations; `up` and `down` use one name for their scratch table.
- Authentication itself: what it attaches to a request is the input of `ResolveApiKey`. Cryptography: hashes are the texts they digest.
