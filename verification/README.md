# PredictIQ service verification

A Dafny model of the stateful parts of the PredictIQ API service and of its worker
supervisors, with proofs about whole runs of them. Each module follows one component:

- `EventPaging`, `LedgerSync`, `SyncWorker`: the ledger sync protocol. `EventPaging` is the
  paginated event fetch against a log that may grow between pages. `LedgerSync` states one
  step of the protocol as a function of the old state and the answers of the environment, and
  proves what every run keeps. `SyncWorker` is the worker with its mutable cursor and cache;
  each of its methods performs exactly one of those steps.
- `WatchRegistry`: the watched-transaction map and its durable mirror.
- `CycleSearch`, `KeySchema`, `Decimal`: the contract key schema, its cycle check and its keys.
- `Newsletter`, `NewsletterRuns`: the double opt-in and whole histories of it.
- `ApiKeys`: key rotation, validation and cleanup.
- `RpcRetry`, `Supervision`: retry and restart loops.
- `Cidr`: CIDR blocks (section 3.1 of RFC 4632), trust lists, the client address.
- `Redaction`, `Idempotency`, `CursorPaging`: body redaction, idempotency keys, handler paging.

`dafny verify dfyconfig.toml` checks everything.

## How the environment is modelled

Clocks, random draws and the answers of other systems are parameters. Which failures a
theorem covers depends on the component:

- Ledger sync (`EventPaging`, `LedgerSync`, `SyncWorker`): every RPC request and every cache
  read, write and purge may fail. A write that reports failure may still have taken effect,
  a purge that fails half way may have deleted any subset of the keys, and any key may expire
  at any time.
- `ApiKeys`: the listing, each update and the insert of a rotation may fail, before or after
  the statement took effect; runs contain rotations interrupted at any point. Validation and
  cleanup are single statements.
- `Newsletter`, `NewsletterRuns`: each operation ends in one statement. No statement fails in
  the model: histories consist of the operations that took effect.
- `WatchRegistry`: background database writes run in any order, and one that fails is one that
  is absent from the order. A failed status lookup leaves the hash watched.
- `Idempotency`: cache reads and writes of the middleware may fail; the window theorems require
  successful reads for requests under the key in question.
- `RpcRetry`, `Supervision`: every sequence of responses, and of crashes.

The sync theorems assume what the protocol itself relies on: reported ledgers are immutable
(the chain is one fixed log for the whole run), events carry distinct ids and 32-bit ledger
numbers from 1 on, and after ledger L was reported the node serves every event up to L. Where
the 32-bit sum of the reorg test or the 64-bit product of the retry delay overflows, it wraps,
as in a release build.

## Limits of the code

Properties one would expect and that hold only sometimes; the lemmas say exactly when.

- `NewsletterRuns.CleanupUnnoticedIff`, `NewsletterRuns.OptInUnnoticedIff`: every cleanup of
  expired pending rows that deletes anything can be noticed, by a data export of the deleted
  address. Subscribe and confirm requests notice it exactly when a deleted row was soft-deleted
  (and tokens live at all), because the upsert keeps the deletion mark of a row that still
  exists. No request handler soft-deletes, so those two requests never notice it
  (`NewsletterRuns.CleanupUnobservable`).
- `NewsletterRuns.ConfirmUndoesUnsubscribeIff`: an unsubscription leaves a pending token usable, and
  confirming by it within its time to live makes the address confirmed again.
- `ApiKeys.AlwaysServedIff`, `ApiKeys.InterruptionKeepsLastingIff`: a rotation is not atomic. A label is
  served for ever exactly as long as no interrupted rotation has updated the new key of its
  last completed one; an interruption that comes before that update does no harm.
- `WatchRegistry.ReloadedIff`, `WatchRegistry.LateUpsertIsReloaded`: the upsert and the resolution
  of a watched transaction are spawned independently; a resolution that runs first is lost.
- `WatchRegistry.YoungAfterWatch`: with a configured TTL of zero a fresh entry is already too old.
- `LedgerSync.FailedQueryPurges`, `LedgerSync.PurgeWithoutReorg`: a failed ledger query purges the cache
  whenever the cursor is more than the lag behind the last ledger seen; no reorganisation is
  needed, one lost event write before it is enough.
- `LedgerSync.RestartBegins`: once the stored cursor (kept a day) has expired, a restart begins at 0
  although the checkpoint (kept a week) is still there.
- `LedgerSync.ReplayWrites`: a replay that finds a cached completed result writes nothing, also
  when the events have expired or new ones were confirmed since.
- `EventPaging.CompleteIff`: a full page whose last event has no id silently ends the fetch.
- `CursorPaging.HasMoreExactIff`: page size 1 with the largest cursor overflows.
- `RpcRetry.CapsGrowIff`, `RpcRetry.OverflowDropsDelay`: a huge base delay overflows and can drop the
  delay to nothing.
- `Redaction.RedactedCleanIff`, `Redaction.ServiceLeaksFromArrays`: redaction does not enter arrays.
- `Cidr.ClientChoosesIff`: behind a trusted peer that appends to the forwarding header, the client
  chooses its own address.
- `Idempotency.CollisionIff`, `Idempotency.SameRawKeyCollidesIff`: scoped keys of distinct callers can
  coincide when ids or routes contain the separator; the example is a bearer text with a colon
  and a path with a colon.
- `Idempotency.SameIdentityIff`: Authorization headers that agree on their first 32 characters are one caller.
- `src/shutdown.rs:112` speaks of giving up after `max_restarts` crashes; the code gives up after
  one crash more (`Supervision.LoopSupervisor.Supervise`).

## Model

| member | source | states |
|---|---|---|
| `EventPaging.FetchEventsSince` | services/api/src/blockchain.rs:855-924 | the loop ends on every finite log, also one that grows between pages; a successful result is the matching events of the log as last served, in order, each once, unless a full page ends without an id; a failed request fails the fetch |
| `EventPaging.TakePage` | services/api/src/blockchain.rs:863-911 | one page extends the received events without gap or repetition, or ends the fetch on a short page or a missing id |
| `EventPaging.FetchedDescribes` | services/api/src/blockchain.rs:892-900 | every returned event has the transaction hash and value of the log event at its place, its ledger modulo 2^32 (0 if missing), its id and topic, or "unknown" where they are missing |
| `EventPaging.CompleteIff` | services/api/src/blockchain.rs:887-911 | nothing is missing exactly when no full page before the end closes with an event that has no id |
| `EventPaging.PageCount` | services/api/src/blockchain.rs:863-911 | with ids present, n events take n / 100 + 1 requests, also when n is a multiple of 100 |
| `LedgerSync.NoEventSkipped` | services/api/src/blockchain.rs:944-1109 | in every run with failures, lost writes, expiry, purges and restarts, every chain event at or below the cursor, stored cursor or checkpoint was written to the store with its own fields |
| `LedgerSync.StepKeepsInv` | services/api/src/blockchain.rs:944-1109 | every poll, restart, expiry and replay keeps the coverage invariant, and only a restart can lower the cursor |
| `LedgerSync.PollKeepsInv` | services/api/src/blockchain.rs:944-1001 | one loop iteration keeps the invariant whichever call fails |
| `LedgerSync.CursorsStayConfirmed` | services/api/src/blockchain.rs:952-961 | no cursor value passes the confirmed tip, so its 32-bit increments never overflow |
| `LedgerSync.ReportedWasAnswered` | services/api/src/blockchain.rs:944-955 | the ledger that bounds the cursors is one the node has answered |
| `LedgerSync.CursorMonotone` | services/api/src/blockchain.rs:1061-1090 | between restarts the cursor never decreases |
| `LedgerSync.HealthyPollCatchesUp` | services/api/src/blockchain.rs:952-1001 | an iteration without failures brings the cursor to the reported ledger minus the lag |
| `LedgerSync.CursorMovesIff` | services/api/src/blockchain.rs:944-1001 | the cursor moves exactly when a ledger more than the lag ahead is reported, the ledger check goes through, the fetch succeeds and every event is stored |
| `LedgerSync.MovedCursor` | services/api/src/blockchain.rs:1061-1090 | it then moves to the reported ledger minus the lag, and stored cursor and checkpoint follow it each by its own write |
| `LedgerSync.StayedCursor` | services/api/src/blockchain.rs:926-961 | otherwise both stay too, unless a purge took them |
| `LedgerSync.StoreEventsStops` | services/api/src/blockchain.rs:970-976 | exactly the events before the first failing write are written, and that one if it landed |
| `LedgerSync.HealthyPollFillsStore` | services/api/src/blockchain.rs:970-976 | after an iteration without failures the store holds every chain event between the old cursor and the confirmed tip, with its own fields |
| `LedgerSync.RestartResumes` | services/api/src/blockchain.rs:1022-1057 | in every run whose checkpoint writes land and are kept, a restart resumes at the cursor the last life reached |
| `LedgerSync.RestartBegins` | services/api/src/blockchain.rs:1022-1057 | without a readable stored cursor a restart begins at 0 whatever the checkpoint is; with one it begins at the checkpoint exactly when the node is more than one ledger past it, else at the stored cursor |
| `LedgerSync.LostCursorRebuildsStore` | services/api/src/blockchain.rs:1022-1057 | after a restart without a stored cursor the next iteration without failures leaves every confirmed event of the chain in the store, whatever was lost before |
| `LedgerSync.FailedQueryPurges` | services/api/src/blockchain.rs:926-955 | when the ledger query fails, the cache is purged exactly if the cursor plus the lag is below the last ledger seen |
| `LedgerSync.PurgeWithoutReorg` | services/api/src/blockchain.rs:926-976 | on every chain of two events there is a two-poll run that reaches such a purge: a lost event write, then a failed ledger query |
| `LedgerSync.SameWritesSameStore` | services/api/src/blockchain.rs:970-976 | two runs that wrote the same events, in any batches, order and repetition, by sync or replay, hold the same store unless keys were lost |
| `LedgerSync.StoresAgree` | services/api/src/blockchain.rs:970-976 | any two runs over one chain, with expiry, purges and restarts, agree on every id that both stores hold |
| `LedgerSync.StoreIsFromChain` | services/api/src/blockchain.rs:970-976 | whatever the store holds under an id are the fields of the chain event with that id |
| `LedgerSync.ReplayWrites` | services/api/src/blockchain.rs:1297-1336 | a completed replay leaves every event from its start to the confirmed tip in the store, writes none above it and counts all it fetched, or, when a completed one is cached, answers that and writes nothing |
| `LedgerSync.ReplayAnsweredIff` | services/api/src/blockchain.rs:1297-1336 | a replay is answered exactly when a cached completion is read or every later call succeeds |
| `SyncWorker.Worker.StoreEvents` | services/api/src/blockchain.rs:970-976 | stores events in order up to the first failing write |
| `SyncWorker.Worker.HandleReorg` | services/api/src/blockchain.rs:926-942 | the reorg step with its three ways to fail |
| `SyncWorker.FetchAll` | services/api/src/blockchain.rs:855-924 | the paginated fetch fails or brings every event from its start to the reported ledger |
| `SyncWorker.Worker.SyncOnce` | services/api/src/blockchain.rs:944-1001 | one sync attempt is the protocol step, on the events that the paginated fetch returns |
| `SyncWorker.Worker.FetchAndStore` | services/api/src/blockchain.rs:970-976 | a fetch that succeeds brings everything after the cursor up to the reported ledger |
| `SyncWorker.Worker.Poll` | services/api/src/blockchain.rs:1061-1094 | one loop iteration is the protocol step; lost checkpoint writes are ignored |
| `SyncWorker.Worker.Start` | services/api/src/blockchain.rs:1022-1057 | the cursor after a restart is the protocol's start cursor |
| `SyncWorker.Worker.RunSyncLoop` | services/api/src/blockchain.rs:1006-1109 | a whole life of the loop keeps the coverage invariant and never falls below its start cursor |
| `SyncWorker.Worker.ReplayEvents` | services/api/src/blockchain.rs:1297-1336 | a replay request is the protocol's replay step |
| `SyncWorker.Worker.StoreConfirmed` | services/api/src/blockchain.rs:1313-1322 | the replay loop stores exactly the fetched events up to the tip |
| `WatchRegistry.MonitoringState.WatchTransaction` | services/api/src/blockchain.rs:1244-1292 | evicts, deduplicates, checks the cap and registers, updating the gauge on every path; exactly a registration starts the database upsert |
| `WatchRegistry.WatchedAfter` | services/api/src/blockchain.rs:1244-1292 | afterwards the map holds exactly the entries younger than the TTL, with their times, and the hash if the call registered it, which it does exactly when it is not live and fewer than cap are |
| `WatchRegistry.MonitoringState.MonitorPass` | services/api/src/blockchain.rs:1168-1205 | one monitor pass over a snapshot of the hashes, and the resolutions it starts, in order |
| `WatchRegistry.MonitorRemovesSettled` | services/api/src/blockchain.rs:1177-1183 | a pass removes exactly the settled hashes and leaves the gauge exact if it removed any |
| `WatchRegistry.WatchEndsIff` | services/api/src/blockchain.rs:1177-1183 | a watch goes on exactly while the lookup fails or answers NOT_FOUND or PENDING |
| `WatchRegistry.ResolutionsAreSettled` | services/api/src/blockchain.rs:1177-1198 | a pass starts one resolution for exactly the hashes with any other status, confirmed for SUCCESS and expired otherwise |
| `WatchRegistry.MonitoringState.LoadWatchedTransactions` | services/api/src/blockchain.rs:1230-1242 | the restore adds every pending hash, keeps existing times, checks no cap |
| `WatchRegistry.RestoreAdds` | services/api/src/blockchain.rs:1230-1242 | afterwards a hash is watched exactly if it was before, with the same time, or was pending, with the current time |
| `WatchRegistry.SizeBound` | services/api/src/blockchain.rs:1230-1275 | in every run the map never exceeds the larger of the cap and the restored count |
| `WatchRegistry.RunStep` | services/api/src/blockchain.rs:1247-1275 | every step of a run leaves the gauge exact and grows the map at most to the cap |
| `WatchRegistry.StaysWithinCap` | services/api/src/blockchain.rs:1265-1275 | once the map is within the cap it stays there |
| `WatchRegistry.EntryLeavesIff` | services/api/src/blockchain.rs:1177-1275 | in a run an entry leaves the map exactly by resolution, or when a watch call finds it as old as the TTL and does not register it anew |
| `WatchRegistry.EntryEntersIff` | services/api/src/blockchain.rs:1247-1275 | a hash enters exactly by a watch call for it while fewer entries than the cap are live, with the time of the call |
| `WatchRegistry.WatchLasts` | services/api/src/blockchain.rs:1247-1275 | an entry that is not resolved stays for the whole TTL with its time, whatever else is watched |
| `WatchRegistry.RewatchIsIdempotent` | services/api/src/blockchain.rs:1258-1262 | watching a live hash again is answered as already watched, even at the cap, and changes no time |
| `WatchRegistry.TimestampStable` | services/api/src/blockchain.rs:1247-1262 | while a hash is in the map its time changes only when a watch call finds it expired |
| `WatchRegistry.RenewalIsNow` | services/api/src/blockchain.rs:1247-1273 | such a renewal sets the time of the call and nothing else does |
| `WatchRegistry.YoungAfterWatch` | services/api/src/blockchain.rs:1247-1273 | after a watch call all entries are younger than the TTL exactly when the TTL is positive or the cap is zero |
| `WatchRegistry.WatchedTransactions.TxUpsert` | services/api/src/db.rs:859-884 | the upsert sets the expiry and keeps a status that is no longer pending |
| `WatchRegistry.WatchedTransactions.TxMarkResolved` | services/api/src/db.rs:930-947 | resolving changes only an existing row |
| `WatchRegistry.RowHistory` | services/api/src/db.rs:859-947 | after any sequence of writes, a row exists iff upserted, is resolved iff a resolution followed an upsert, and has the last upsert's expiry |
| `WatchRegistry.ResolvedStatus` | services/api/src/db.rs:930-947 | a resolved row has the status of the last resolution |
| `WatchRegistry.ReloadedIff` | services/api/src/db.rs:915-927 | a restart reloads a hash exactly when it was upserted, no resolution followed an upsert, and its last expiry is ahead |
| `WatchRegistry.ResolvedForGood` | services/api/src/db.rs:859-884 | a status that left pending never returns to it |
| `WatchRegistry.LateUpsertIsReloaded` | services/api/src/blockchain.rs:1190-1198 | a resolution that runs before the upsert is lost |
| `CycleSearch.Search.Dfs` | services/api/src/config.rs:1021-1049 | ends on every finite graph although it re-enters black nodes; without a cycle it restores the path, keeps grey = on the path, and the node reaches no cycle; otherwise it returns a simple cycle |
| `CycleSearch.Search.CloseCycle` | services/api/src/config.rs:1033-1037 | the path from a grey neighbour on, closed by it, is a simple cycle of the graph |
| `CycleSearch.EnterKeepsConsistent` | services/api/src/config.rs:1027-1028 | turning any node, also a black one, grey while pushing it keeps the path a duplicate-free walk of exactly the grey nodes |
| `CycleSearch.LeaveKeepsConsistent` | services/api/src/config.rs:1046-1047 | popping and blackening a node that reaches no cycle keeps it too |
| `CycleSearch.CycleThroughNeighbour` | services/api/src/config.rs:1030-1043 | a node that reaches a cycle has a neighbour that does, so exploring neighbours is enough |
| `CycleSearch.DetectCycle` | services/api/src/config.rs:980-1019 | returns a cycle exactly when the graph has a closed walk, and the cycle is real and simple |
| `KeySchema.Validate` | services/api/src/config.rs:928-971 | succeeds exactly on sound schemas; otherwise lists every template problem in order and, if templates refer to each other in a circle, one real circle of fields without repetition |
| `KeySchema.EdgeIffMentions` | services/api/src/config.rs:980-1005 | a field depends on another exactly when both are among the five and its template contains the other name in braces |
| `KeySchema.MentionedBack` | services/api/src/config.rs:957-963 | a template that mentions its own field, or a field that mentions it back, is never accepted |
| `KeySchema.TemplateProblems` | services/api/src/config.rs:928-955 | the listed problems are those of market, user bets, oracle result, platform statistics and health check in this order, empty before missing placeholder |
| `KeySchema.ReferencesAreMentions` | services/api/src/config.rs:992-1003 | a field depends on exactly the fields whose placeholder its template contains |
| `KeySchema.ReplaceInjectiveIff` | services/api/src/config.rs:1054-1066 | substitution is injective in the id exactly when the template has a placeholder, for any number of placeholders and ids of any length |
| `KeySchema.ReplaceIdentity` | services/api/src/config.rs:1054-1066 | substituting the placeholder for itself gives the template back |
| `KeySchema.ReplaceFirst` | services/api/src/config.rs:1054-1066 | the first placeholder becomes the id, the text before it stays, the rest is treated alike |
| `KeySchema.KeysFillTemplates` | services/api/src/config.rs:1054-1066 | each key is its own template with the id in the place of the placeholder |
| `KeySchema.ValidatedKeysAreDistinct` | services/api/src/config.rs:1054-1066 | in a schema that passes validation distinct markets and distinct users have distinct keys |
| `Decimal.IntTextInjective` | services/api/src/config.rs:1054-1056 | the decimal text of a market id identifies it |
| `Decimal.DecimalNotation` | services/api/src/config.rs:1054-1056 | the text is decimal notation, with a minus sign for negative numbers |
| `Newsletter.NewsletterTable.HandleSubscribe` | services/api/src/handlers.rs:537-554 | stores a token unless the address is active; an upsert resets everything but the deletion mark |
| `Newsletter.NewsletterTable.ConfirmByToken` | services/api/src/db.rs:392-408 | confirms the rows that hold the token within its time to live and reports whether any did |
| `Newsletter.NewsletterTable.HandleUnsubscribe` | services/api/src/db.rs:435-445 | marks a row that is not soft-deleted and takes its confirmation away |
| `Newsletter.NewsletterTable.MarkDeleted` | services/api/src/db.rs:447-457 | soft-deletes once |
| `Newsletter.NewsletterTable.Erase` | services/api/src/db.rs:459-465 | removes the row of the address and no other |
| `Newsletter.NewsletterTable.ExportRow` | services/api/src/db.rs:339-349 | the data export finds the row of the address unless it is soft-deleted |
| `Newsletter.NewsletterTable.DeleteExpiredPending` | services/api/src/db.rs:414-433 | deletes some stale unconfirmed rows, as many as there are up to the batch size |
| `Newsletter.NewsletterTable.Drain` | services/api/src/db.rs:410-413 | repeating a batch of at least one leaves exactly the rows that are confirmed or younger than the time to live, and stops after the rounded-up number of batches plus one |
| `NewsletterRuns.ReachableRowsConsistent` | services/api/src/db.rs:367-465 | in every history a confirmed row has no token, has a confirmation time and is not unsubscribed |
| `NewsletterRuns.HeldTokenIsOutstanding` | services/api/src/db.rs:367-408 | every token a row holds was issued to that address with the row's creation time and source and neither used, replaced nor erased since; the row is unconfirmed |
| `NewsletterRuns.OutstandingTokenIsHeld` | services/api/src/db.rs:367-408 | conversely, an outstanding token is the one its address's row holds, with its issue time |
| `NewsletterRuns.ConfirmedByOwnToken` | services/api/src/db.rs:392-408 | every confirmed row was confirmed at its confirmation time by the token issued to that address, within the time to live |
| `NewsletterRuns.MarksHaveOrigins` | services/api/src/db.rs:435-457 | unsubscription and deletion times are those of operations on that address |
| `NewsletterRuns.MarkedNow` | services/api/src/db.rs:435-457 | an unsubscription or soft delete marks exactly the row of its address, and not a soft-deleted one |
| `NewsletterRuns.DeletionMarkStays` | services/api/src/db.rs:372-383 | a deletion mark survives everything but the deletion of the row |
| `NewsletterRuns.RedeemedTokenIsFresh` | services/api/src/db.rs:392-408 | a token confirms only while outstanding and within its time to live |
| `NewsletterRuns.TokenConfirmsAtMostOnce` | services/api/src/db.rs:392-408 | no token confirms twice |
| `NewsletterRuns.NewerTokenSupersedes` | services/api/src/db.rs:367-408 | after a newer token for an address an older one never confirms |
| `NewsletterRuns.ConfirmUndoesUnsubscribeIff` | services/api/src/db.rs:392-445 | after an unsubscription the next confirm makes the address confirmed again exactly when it presents the token outstanding at the unsubscription within its time to live |
| `NewsletterRuns.CleanupUnobservable` | services/api/src/db.rs:410-433 | as long as nothing is soft-deleted, erasing all cleanups from any sequence of operations, of any batches at any times, changes no subscribe or confirm answer |
| `NewsletterRuns.CleanupUnnoticedIff` | services/api/src/handlers.rs:810-900 | with the data export among the requests, a cleanup goes unnoticed by all later ones exactly when it deletes nothing |
| `NewsletterRuns.OptInUnnoticedIff` | services/api/src/db.rs:372-383 | subscribe and confirm requests alone fail to notice a cleanup exactly when it deletes no soft-deleted row or the time to live is zero |
| `NewsletterRuns.LaterSoftDeleteNotices` | services/api/src/db.rs:447-457 | a soft delete after a cleanup tells the difference |
| `ApiKeys.ApiKeyTable.ListActive` | services/api/src/db.rs:1030-1053 | lists exactly the active keys, each once, the newest first |
| `ApiKeys.ApiKeyTable.ScheduleExpiry` | services/api/src/handlers.rs:1838-1859 | the loop sets one expiry on the listed keys of the label up to the first failing update, and reports it if there was a key and all updates succeeded |
| `ApiKeys.ScheduleActive` | services/api/src/handlers.rs:1838-1859 | updating the listed keys one by one touches exactly the active keys of the label |
| `ApiKeys.ApiKeyTable.RotateKey` | services/api/src/handlers.rs:1809-1866 | under any database failures the request is a completed rotation or one interrupted after a prefix of the listed keys; success is reported only for a completed one |
| `ApiKeys.ApiKeyTable.DeleteExpiredKeys` | services/api/src/db.rs:1019-1027 | deletes exactly the keys whose expiry has come and counts them |
| `ApiKeys.LastingKeyIff` | services/api/src/handlers.rs:1815-1866 | in every run with interruptions, after the last completed rotation of a label only its new key can be without expiry, and it is so exactly until an interrupted rotation updates it |
| `ApiKeys.AlwaysServedIff` | services/api/src/handlers.rs:1791-1866 | hence some key of the label validates at every time exactly when no interrupted rotation since has updated the new key |
| `ApiKeys.InterruptionKeepsLastingIff` | services/api/src/handlers.rs:1843-1866 | an interruption leaves the label a key without expiry exactly when it did not update all of them |
| `ApiKeys.OverlapWindow` | services/api/src/handlers.rs:1815-1859 | a key validates exactly until 86400 s times the overlap after the last rotation to update it, completed or interrupted; the overlap is 7 days if none is given, 1 if 0 is given, else the given number |
| `ApiKeys.ReportedIff` | services/api/src/handlers.rs:1838-1859 | a rotation reports that same time exactly when the label had an active key |
| `ApiKeys.UntouchedKeyKept` | services/api/src/handlers.rs:1843-1845 | a key that no rotation updates, of whatever label, validates as before whatever else runs |
| `ApiKeys.CleanupUnobservable` | services/api/src/db.rs:1017-1027 | erasing all deletions of expired keys from any run changes no validation and no rotation answer |
| `RpcRetry.RpcCall` | services/api/src/blockchain.rs:399-494 | retries after exactly the transient responses (none, 429, other statuses outside 2xx and 4xx, errors outside the four fatal codes, empty results), at most max(1, retry_attempts) tries; every delay lies in the jitter range below its cap |
| `RpcRetry.AnswersIff` | services/api/src/blockchain.rs:448-464 | a call answers a value exactly for a 2xx status with a result and no error |
| `RpcRetry.FailureReported` | services/api/src/blockchain.rs:423-478 | the failure reported for every other response |
| `RpcRetry.Backoff` | services/api/src/blockchain.rs:482-493 | one jittered delay is the cap less the jitter range plus the number drawn, or the cap itself without jitter |
| `RpcRetry.CapsDouble` | services/api/src/blockchain.rs:484-484 | the caps start at the base delay of at least 50 ms, double ten times and stop at 60000 ms |
| `RpcRetry.CapsGrow` | services/api/src/blockchain.rs:484-484 | without overflow the caps never decrease |
| `RpcRetry.CapsGrowIff` | services/api/src/blockchain.rs:484-484 | for every 64-bit base delay the caps never decrease exactly when no product overflows or none drops below 60000 ms |
| `RpcRetry.OverflowDropsDelay` | services/api/src/blockchain.rs:484-484 | a base delay of 2^54 ms gives no delay from the eleventh attempt on |
| `RpcRetry.TotalDelayBound` | services/api/src/blockchain.rs:482-493 | a call never sleeps longer than 60000 ms per retry in total |
| `Supervision.LoopSupervisor.Supervise` | src/shutdown.rs:115-153 | runs to the first success or to cap + 1 crashes, with the doubling delays, and counts every crash once |
| `Supervision.StepSupervisor.RecordCrash` | src/worker_supervisor.rs:64-74 | counts the crash and grants a delay below the cap |
| `Supervision.DriveSteps` | src/worker_supervisor.rs:64-74 | driving a worker by the step machine meets the same specification with the default cap |
| `Supervision.SupervisionIsDetermined` | src/shutdown.rs:115-153 | that specification fixes outcome, calls, delays and crash count, so both supervisors agree on every worker |
| `Supervision.BackoffsAgree` | src/worker_supervisor.rs:27-30 | the shift-based and the power-based backoff agree for every attempt, saturated or not |
| `Supervision.TotalSleepIff` | src/shutdown.rs:63-65 | the sleeps of a supervised run with n restarts add up to 500 * (2^n - 1) ms exactly for n up to 32; later sleeps are 500 * (2^32 - 1) ms |
| `Cidr.SameNetworkIffQuotient` | services/api/src/client_ip.rs:42-62 | for every width and prefix length the mask test holds exactly when the quotients by 2^(width - prefix) are equal |
| `Cidr.SameNetworkIffPrefix` | services/api/src/client_ip.rs:42-62 | the mask compares exactly the leading bits |
| `Cidr.InCidrIffPrefix` | services/api/src/client_ip.rs:42-62 | membership needs one family, a prefix within the width and equal leading bits |
| `Cidr.ShorterPrefixAdds` | services/api/src/client_ip.rs:42-62 | shortening a prefix only adds addresses |
| `Cidr.NestedOrDisjoint` | services/api/src/client_ip.rs:42-62 | blocks that share an address are nested |
| `Cidr.TrustedIffSomeEntry` | services/api/src/client_ip.rs:23-40 | the list walk trusts an address exactly when some entry matches |
| `Cidr.TrustedIffNamed` | services/api/src/client_ip.rs:23-62 | an address is trusted exactly when the list names it or a network of its family with the same leading bits |
| `Cidr.TrustMonotone` | services/api/src/client_ip.rs:23-40 | trust does not depend on order or repetition and grows with the list |
| `Cidr.PlainIsFullBlock` | services/api/src/client_ip.rs:34-38 | a plain address equals its full-length block |
| `Cidr.ClientAddress` | services/api/src/client_ip.rs:69-91 | the address for every combination of headers: the peer if untrusted; else the first hop if it reads as an address, else the real-IP header if it does, else the peer |
| `Cidr.ClientChoosesIff` | services/api/src/client_ip.rs:69-91 | by its part of the forwarding header a client behind an untrusted peer gets only the peer's address, and behind a trusted one exactly the addresses that can be written, or the fallback |
| `Redaction.RedactMap` | services/api/src/body_redact.rs:144-154 | the in-place key loop computes the recursive reference |
| `Redaction.RedactSensitive` | services/api/src/body_redact.rs:88-101 | a body that is an object is redacted by the service's list of fields and printed; any other, and one that cannot be printed, is returned as it is |
| `Redaction.SensitiveIff` | services/api/src/body_redact.rs:146-147 | a key is sensitive exactly when a listed field stands anywhere in its lower-cased text |
| `Redaction.HarmlessPathKept` | services/api/src/body_redact.rs:144-154 | along harmless keys the same keys and non-object values are found, arrays included |
| `Redaction.SensitiveKeyMasked` | services/api/src/body_redact.rs:146-149 | a sensitive key reached through harmless objects holds the marker and nothing remains below it |
| `Redaction.RedactIdempotent` | services/api/src/body_redact.rs:144-154 | redacting twice equals redacting once |
| `Redaction.RedactedCleanIff` | services/api/src/body_redact.rs:150-152 | no sensitive value survives exactly when the arrays reached through harmless keys hold none |
| `Redaction.ServiceLeaksFromArrays` | services/api/src/body_redact.rs:144-154 | under the service's own list of fields a password in an object in an array survives |
| `Idempotency.IdempotencyStore.Insert` | services/api/src/idempotency.rs:242-252 | replaces the entry of the scoped key and no other |
| `Idempotency.LookupAnswersLastSet` | services/api/src/idempotency.rs:221-252 | over every sequence of sets a lookup answers the last one under its key, only to the user that made it and only while younger than the TTL |
| `Idempotency.ScopedKeyInjective` | services/api/src/idempotency.rs:216-218 | for ids of one length and routes without a colon the scoped key is injective |
| `Idempotency.CollisionIff` | services/api/src/idempotency.rs:216-218 | two scopes can collide exactly when one is a prefix of the other |
| `Idempotency.SameRawKeyCollidesIff` | services/api/src/idempotency.rs:53-61 | under one raw key two callers share an entry exactly when user and route run together |
| `Idempotency.SameIdentityIff` | services/api/src/idempotency.rs:70-96 | two senders are one caller exactly when they present the same API key, else headers that agree on 32 characters, else one address and agent, or the hash collides |
| `Idempotency.StoreRefinesMap` | services/api/src/idempotency.rs:216-252 | for such callers the store is a map from (user, route, key) to the last response, and never reports a collision |
| `Idempotency.NeverSetIsAbsent` | services/api/src/idempotency.rs:216-239 | a triple that was never set has no response |
| `Idempotency.Middleware.HandleRequest` | services/api/src/idempotency.rs:128-178 | one request: replay, rejection, or execution with caching of 2xx only |
| `Idempotency.ExecutedIff` | services/api/src/idempotency.rs:133-178 | a request is executed exactly when the cache cannot be read or no 2xx response was recorded under its key within the window; it is answered with the handler's own response |
| `Idempotency.OnlyRecordedChanges` | services/api/src/idempotency.rs:157-172 | only a 2xx response whose write succeeds enters the cache, with the handler's status, body and content type |
| `Idempotency.CacheKeysCoincideIff` | services/api/src/idempotency.rs:53-61 | cache keys coincide exactly when user, route and key run together to one text |
| `Idempotency.WindowReplays` | services/api/src/idempotency.rs:128-178 | within the window after a cached 2xx execution, while cache reads under its key succeed, its caller gets the recorded status, body and content type and another caller is rejected; neither is executed |
| `Idempotency.OneExecutionPerWindow` | services/api/src/idempotency.rs:128-178 | two cached 2xx executions under one key are at least a window apart |
| `Idempotency.ReplayHasOrigin` | services/api/src/idempotency.rs:128-178 | only a cached 2xx response is ever replayed, to the same caller identity, under the same key, within the window |
| `CursorPaging.FollowPages` | services/api/src/handlers.rs:1034-1052 | following the next cursor with any limit of at least 1 ends and yields the list exactly once in order, in the expected number of pages |
| `CursorPaging.PageAt` | services/api/src/handlers.rs:1034-1052 | the page at an index, its has_more and its next cursor |
| `CursorPaging.FirstPage` | services/api/src/handlers.rs:1034-1039 | without a cursor that parses the first page is served |
| `CursorPaging.RawPageReads` | services/api/src/handlers.rs:1308-1313 | a cursor names the page whose number it is, a negative or unreadable one page 0 |
| `CursorPaging.FollowBets` | services/api/src/handlers.rs:1303-1332 | following the next cursors asks for pages 0, 1, 2, ... in order, exactly enough to cover the total |
| `CursorPaging.HasMoreExactIff` | services/api/src/handlers.rs:1303-1332 | has_more equals the unbounded-integer test for every total exactly when it is not page size 1 with the largest cursor |
| `Decimal.Int64RoundTrip` | services/api/src/handlers.rs:1308-1313 | a page number written as a cursor parses back |
| `Decimal.UnsignedRoundTrip` | services/api/src/handlers.rs:1034-1043 | an index written as a cursor parses back |

## Left out

- The contract's betting, fee, dispute and governance logic is not part of this model.
- HTTP, Redis, Postgres and RPC transport appear only as answers, maps and tables; the cache's circuit breaker and stampede protection are not modelled.
- Concurrency between requests: database and cache operations of one request are not interleaved with those of another; the watched-transaction writes are the exception, they run in any order.
- The `sync_once` side effects on the watch registry and on the market, oracle and statistics caches, and the ledger-gap metrics.
- Failing newsletter statements, and the rate limits and tokens of the data export.
- The market id of a watched transaction.
- `WATCHED_TX_TTL` (services/api/src/blockchain.rs:1281) is not defined in its file; the expiry of a stored watch is a parameter.
- RpcRetry.RpcCall: the jitter is computed over reals, not in floating point.
- Supervision.LoopSupervisor.Supervise: the one case in which the 32-bit attempt counter overflows is excluded, a restart cap of the 32-bit maximum with a worker that crashes more often than that; the 64-bit crash counters do not wrap.
- Cidr: parsing and trimming of address text is a parameter; list entries are given after parsing.
- Redaction: lower-casing, JSON parsing and JSON printing are parameters.
- Configuration values that exceed a signed 64-bit integer where the code casts to one (token TTL, batch size).
- Environment parsing, the restart loop in services/api/src/main.rs, metrics, middleware wiring, e-mail delivery and the front end.
