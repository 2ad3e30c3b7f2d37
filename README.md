# NextDNS reconciliation and dispatch engine, modelled in Dafny

This project models the core of the NextDNS task runner of DnsConf: the engine that brings the
rewrite (redirect) table held by the remote NextDNS profile in line with the desired one, and
pushes every remote write through a batching, throttling, retry-on-rate-limit dispatcher.

- `Outcomes` (outcomes.dfy): what a remote call answers (`Ok`, or `Fail` with a possibly
  null message) and the classification the loops apply: a failure is rate-limited when its
  message is non-null and contains `"429"`; every other failure is fatal.
- `Dispatcher` (dispatcher.dfy): `Dispatch`, the reference definition of the retry policy
  shared by both loops, and its properties. The remote is an oracle: a script of answers that
  successive calls consume. A success sleeps the throttle and moves to the next unit. A
  rate-limited answer sleeps the 60000 ms cooldown and retries the same unit. A fatal answer
  throws. Sleeps are recorded as events on each call (`Step.pause`), not as time.
- `Batches` (batches.dfy): the slicing of `processInBatches` into chunks of 50.
- `RewriteModel` (rewrite_model.dfy): routes, rewrites and the request table, with the two
  loops of the rewrite service as reference functions. `FirstWins` is `buildNewRewrites`.
  `ScanPrefix` / `Reconcile` is the single pass of `cleanupOutdated`. Each has lemmas
  that describe its result independently of the loop.
- `RewriteService` (rewrite_service.dfy): `NextDnsRewriteService` itself. The `HashMap` is a
  class `RequestTable` that `CleanupOutdated` edits in place. The methods keep the loops of the
  source, and each is proved equal to its reference function.
- `Convergence` (convergence.dfy): what a successful cycle leaves on the remote. After it, the
  first remote record for every requested domain carries the requested address, so a second
  reconciliation finds nothing to delete and nothing to create.
- `TaskRunner` (task_runner.dfy): `processInBatches` and `run`, the phase sequencing and the
  remove-all rule.

One script of remote answers serves every dispatch loop of the run. The deny service's remove-all is the exception: only its outcome is given. Each phase consumes the answers after those
of the phase before it, which is how the model expresses that the phases run one after another.

## Where the code departs from the intended design

The intended design has one remote record per requested domain after a cycle. It also has a
reconciliation pass that does not depend on the order of the remote records. In the code only
the create-set is order-independent. When a domain has a matching record, the code removes the
domain from the request map. A mismatching record for the same domain that is scanned after
the match is then no longer flagged. The model follows the code.

- As written: `RewriteModel.DeleteSetDependsOnOrder` and `Convergence.StaleDuplicateSurvives`
  show the consequence. Such a duplicate stays on the remote after a full cycle. That is why
  the code's convergence (`Convergence.CycleConverges`) is stated about the first record per
  domain.
- As intended: `Convergence.IntendedOutdated` checks every remote record against the requests
  as they stood before the pass. `Convergence.IntendedCycleConverges` proves that after its
  cycle every remote record for a requested domain carries the requested address, and every
  requested domain has a record.
- Scan order is not the only source of duplicates. Two identical matching records for a domain
  both survive a cycle in either order (`Convergence.IdenticalDuplicatesSurvive`). Neither pass
  removes them, so "one record per domain" holds for neither.

## Model

| member | source | states |
|---|---|---|
| `Outcomes.ContainsIffOccurs` | src/main/java/com/novibe/dns/next_dns/NextDnsTaskRunner.java:96 | the substring test used on failure messages holds exactly when the pattern occurs at some position |
| `Outcomes.RateLimitedWhenCodeInside` | src/main/java/com/novibe/dns/next_dns/NextDnsTaskRunner.java:96 | any message with "429" somewhere inside it classifies the failure as rate-limited |
| `Dispatcher.DispatchFollowsScript` | src/main/java/com/novibe/dns/next_dns/NextDnsTaskRunner.java:89-104 | every call consumes the next remote answer in order, one answer per call; a success is followed by the throttle, a rate limit by the 60000 ms cooldown, a fatal failure by no pause |
| `Dispatcher.DispatchRetriesInOrder` | src/main/java/com/novibe/dns/next_dns/NextDnsTaskRunner.java:87-106 | calls start at the first unit and carry the unit at their index; after a rate limit the same unit is re-submitted, after a success the next one; only the last call can be fatal, so no unit is skipped and none follows a fatal failure |
| `Dispatcher.DispatchStatus` | src/main/java/com/novibe/dns/next_dns/NextDnsTaskRunner.java:89-104 | the loop completes iff the last unit's call succeeded (or there were no units); it aborts iff the last call was fatal, reporting that failure's message; otherwise the answers ran out |
| `Dispatcher.DispatchDelivers` | src/main/java/com/novibe/dns/next_dns/NextDnsTaskRunner.java:87-107 | the units that went through are a prefix of the input, in order, each once; on completion they are the whole input; on abort the fatal call was for the first unit not delivered |
| `Dispatcher.DeliveredCount` | src/main/java/com/novibe/dns/next_dns/NextDnsTaskRunner.java:87-106 | at most the remaining units go through, all of them on completion, and on abort the fatal call was for the first unit not delivered |
| `Dispatcher.DeliveredSlice` | src/main/java/com/novibe/dns/next_dns/NextDnsTaskRunner.java:87-93 | the units that went through are exactly units[k..k+d], the next d units in input order |
| `Dispatcher.DeliveredInOrder` | src/main/java/com/novibe/dns/next_dns/NextDnsTaskRunner.java:87-93 | the i-th unit that went through is units[k + i] |
| `Dispatcher.DispatchPauseCounts` | src/main/java/com/novibe/dns/next_dns/NextDnsTaskRunner.java:92-100 | exactly one throttle per successful call, and one cooldown for each other call except a final fatal one |
| `Dispatcher.RetryUntilSuccess` | src/main/java/com/novibe/dns/next_dns/NextDnsTaskRunner.java:90-100 | n rate-limited answers followed by a success: the unit is delivered, the loop completes, and it sleeps the cooldown exactly n times |
| `Batches.SlicesFlatten` | src/main/java/com/novibe/dns/next_dns/NextDnsTaskRunner.java:87-88 | the chunks concatenated in order equal the input list |
| `Batches.SlicesSizes` | src/main/java/com/novibe/dns/next_dns/NextDnsTaskRunner.java:87-88 | every chunk has between 1 and 50 items |
| `Batches.SlicesCount` | src/main/java/com/novibe/dns/next_dns/NextDnsTaskRunner.java:87 | there are ceil(n/50) chunks, and none for an empty list |
| `Batches.SlicesCountIff` | src/main/java/com/novibe/dns/next_dns/NextDnsTaskRunner.java:87 | chunk k exists iff the loop index 50*k is below the list length |
| `Batches.SliceAt` | src/main/java/com/novibe/dns/next_dns/NextDnsTaskRunner.java:88 | chunk k is items[50k .. min(50k+50, n)] |
| `RewriteModel.Ids` | src/main/java/com/novibe/dns/next_dns/service/NextDnsRewriteService.java:72 | the id list has one entry per fetched rewrite, the i-th being the i-th rewrite's id |
| `RewriteModel.FirstWinsSpec` | src/main/java/com/novibe/dns/next_dns/service/NextDnsRewriteService.java:26-30 | the table's keys are exactly the routes' websites, and each entry is (website, ip) of the first route naming that website |
| `RewriteModel.FirstWinsKeyedByName` | src/main/java/com/novibe/dns/next_dns/service/NextDnsRewriteService.java:29 | every entry of the built table is filed under its own domain name |
| `RewriteModel.ScanPending` | src/main/java/com/novibe/dns/next_dns/service/NextDnsRewriteService.java:38-47 | after any prefix of the remote list, the map holds exactly the original requests not yet matched (same name, same content) by a scanned record, unchanged |
| `RewriteModel.ScanOutdated` | src/main/java/com/novibe/dns/next_dns/service/NextDnsRewriteService.java:38-44 | after any prefix of the remote list, the collected ids are those of the stale scanned records, in scan order |
| `RewriteModel.StaleIdsMembers` | src/main/java/com/novibe/dns/next_dns/service/NextDnsRewriteService.java:41-42 | an id is collected iff it belongs to a stale record |
| `RewriteModel.ReconcileCreateSet` | src/main/java/com/novibe/dns/next_dns/service/NextDnsRewriteService.java:38-47 | a desired entry survives into the create-set iff no remote rewrite has that name with equal content |
| `RewriteModel.ReconcileDeleteSet` | src/main/java/com/novibe/dns/next_dns/service/NextDnsRewriteService.java:38-44 | the delete-set lists, in remote-list order, the ids of records whose name is still requested with a different content at scan time; each belongs to a remote record with a requested name and different content |
| `RewriteModel.NeverDeleted` | src/main/java/com/novibe/dns/next_dns/service/NextDnsRewriteService.java:41-45 | a remote record whose name is not requested, or whose content equals the requested one, is never deleted (remote ids being unique) |
| `RewriteModel.CreateSetIgnoresOrder` | src/main/java/com/novibe/dns/next_dns/service/NextDnsRewriteService.java:38-47 | two remote lists with the same records, in any order or repetition, give the same create-set |
| `RewriteModel.DeleteSetDependsOnOrder` | src/main/java/com/novibe/dns/next_dns/service/NextDnsRewriteService.java:41-45 | a mismatching record scanned after the matching one for its domain is not deleted; scanned before it, it is |
| `RewriteModel.ReplaceExample` | src/main/java/com/novibe/dns/next_dns/service/NextDnsRewriteService.java:41-42 | a remote record for a requested domain with another address is deleted and the request kept for creation |
| `RewriteModel.UntouchedOnMatchExample` | src/main/java/com/novibe/dns/next_dns/service/NextDnsRewriteService.java:44-45 | a remote record already carrying the requested address is neither deleted nor recreated |
| `RewriteService.RequestTable.constructor` | src/main/java/com/novibe/dns/next_dns/service/NextDnsRewriteService.java:27 | a new table is empty |
| `RewriteService.RequestTable.PutIfAbsent` | src/main/java/com/novibe/dns/next_dns/service/NextDnsRewriteService.java:29 | the entry is added only when the key is absent; otherwise the table is unchanged |
| `RewriteService.RequestTable.Remove` | src/main/java/com/novibe/dns/next_dns/service/NextDnsRewriteService.java:45 | the key is removed and nothing else changes |
| `RewriteService.RequestTable.Values` | src/main/java/com/novibe/dns/next_dns/service/NextDnsRewriteService.java:54 | the copy lists, in some order of the keys, each key's value exactly once: a value shared by several keys appears once per key, and nothing else appears |
| `RewriteModel.ListsValuesFacts` | src/main/java/com/novibe/dns/next_dns/service/NextDnsRewriteService.java:54 | such a copy has as many elements as the table has keys, contains every key's value, and contains nothing else |
| `RewriteService.BuildNewRewrites` | src/main/java/com/novibe/dns/next_dns/service/NextDnsRewriteService.java:26-31 | a fresh table filled by putIfAbsent in route order equals the first-wins table |
| `RewriteService.CleanupOutdated` | src/main/java/com/novibe/dns/next_dns/service/NextDnsRewriteService.java:34-55 | the collected ids are the reconciled delete-set; the caller's table is edited in place into the create-set; the outdated ids are deleted element-wise, with no call when there are none; after a successful delete phase the returned list holds exactly the table's values (so its size is the table's size); after a failed one nothing is returned |
| `RewriteService.SaveRewrite` | src/main/java/com/novibe/dns/next_dns/service/NextDnsRewriteService.java:64-66 | saving one rewrite is the element-wise dispatch of the one-element list |
| `RewriteService.RemoveAll` | src/main/java/com/novibe/dns/next_dns/service/NextDnsRewriteService.java:69-75 | remove-all is the element-wise dispatch of the fetched ids, in fetched order |
| `RewriteService.RemoveAllDeletesEveryId` | src/main/java/com/novibe/dns/next_dns/service/NextDnsRewriteService.java:69-75 | when remove-all completes, every fetched id was deleted successfully exactly once, in fetched order, and every call was a delete of a fetched id |
| `RewriteService.ProcessElementWise` | src/main/java/com/novibe/dns/next_dns/service/NextDnsRewriteService.java:80-104 | the per-item loop with its retry flag makes exactly the calls of the reference dispatcher, throttling 3000 ms after each success |
| `Convergence.CycleConverges` | src/main/java/com/novibe/dns/next_dns/service/NextDnsRewriteService.java:34-55 | after the delete-set is deleted and the create-set saved, the first remote record for every requested domain carries the requested address |
| `Convergence.ConvergedIsFixpoint` | src/main/java/com/novibe/dns/next_dns/service/NextDnsRewriteService.java:38-47 | a remote whose first record for each requested domain already carries the requested address yields empty delete- and create-sets |
| `Convergence.SecondRunFindsNothing` | src/main/java/com/novibe/dns/next_dns/service/NextDnsRewriteService.java:34-55 | reconciling again against the remote left by a successful cycle finds nothing to delete and nothing to create |
| `Convergence.StaleDuplicateSurvives` | src/main/java/com/novibe/dns/next_dns/service/NextDnsRewriteService.java:41-45 | a mismatching duplicate listed after the matching record stays on the remote after a full cycle |
| `Convergence.IdenticalDuplicatesSurvive` | src/main/java/com/novibe/dns/next_dns/service/NextDnsRewriteService.java:41-45 | two identical matching records for a requested domain both stay on the remote after a full cycle |
| `Convergence.IntendedCycleConverges` | src/main/java/com/novibe/dns/next_dns/service/NextDnsRewriteService.java:38-54 | with the intended pass (every record checked against the original requests), after the cycle every record for a requested domain carries the requested address and every requested domain has a record |
| `Convergence.IntendedCycleAddresses` | src/main/java/com/novibe/dns/next_dns/service/NextDnsRewriteService.java:41-43 | after the intended cycle no record for a requested domain has another address |
| `Convergence.IntendedCycleCovers` | src/main/java/com/novibe/dns/next_dns/service/NextDnsRewriteService.java:44-54 | after the intended cycle every requested domain has a record: an already matching one is never deleted, and a missing one is created |
| `TaskRunner.ProcessInBatches` | src/main/java/com/novibe/dns/next_dns/NextDnsTaskRunner.java:86-108 | the for/while loop over slices of 50 makes exactly the calls of the reference dispatcher on the chunks, throttling 4000 ms after each success |
| `TaskRunner.BatchRunDeliversItems` | src/main/java/com/novibe/dns/next_dns/NextDnsTaskRunner.java:86-88 | an empty list makes no saver call; every submitted batch has 1 to 50 items; on completion the delivered batches concatenate to the list |
| `TaskRunner.BlockPhase` | src/main/java/com/novibe/dns/next_dns/NextDnsTaskRunner.java:41-54 | the deny-list batches never use more remote answers than the script holds |
| `TaskRunner.RedirectPhase` | src/main/java/com/novibe/dns/next_dns/NextDnsTaskRunner.java:56-71 | building the requests, cleaning up and saving in batches gives the rewrite phase's reference result; saving happens only after a completed delete phase, on the answers after the deletes'; the saved list holds exactly the reconciled table's values |
| `TaskRunner.Run` | src/main/java/com/novibe/dns/next_dns/NextDnsTaskRunner.java:33-81 | the run's calls are those of its reference result; when the create-set is saved it holds exactly the reconciled table's values, and otherwise it is empty |
| `TaskRunner.RunPhases` | src/main/java/com/novibe/dns/next_dns/NextDnsTaskRunner.java:43-77 | the block phase runs iff block sources are given; the rewrite phase iff redirect sources are given and the block phase completed; saving iff the cleanup completed; the deny remove-all iff neither kind of source is given; the rewrite remove-all iff, in addition, the deny remove-all returned normally |
| `TaskRunner.RunScriptOffsets` | src/main/java/com/novibe/dns/next_dns/NextDnsTaskRunner.java:51-77 | the phases use the answers one after another, never more than given: the block batches and remove-all from the first answer, the deletes after the block phase's, the create batches after the deletes'; each phase dispatches its own work list (the deny list, the reconciled delete-set, the create-set, all fetched ids) |
| `TaskRunner.RunStatus` | src/main/java/com/novibe/dns/next_dns/NextDnsTaskRunner.java:33-81 | the run succeeds iff every phase that ran completed, the deny remove-all included; otherwise it reports the status of the phase that failed, or an abort with the deny remove-all's message |

## Left out

- Remote HTTP calls (fetch, save, delete) and `NextDnsRateLimitedApiProcessor.callApi`: replaced by a script of answers. "Retry forever" becomes "retry while answers remain", and a run whose script runs out ends with `ScriptExhausted`.
- The batch saver `saveRewrites` that the runner passes to `processInBatches` for the create-set: the rewrite service as given has only `saveRewrite`, so the batch saver is abstract and its answers come from the script.
- Source loading, environment parsing and the deny service (`fetchWebsites`, `EnvParser.parse`, `dropExistingDenys`, `saveDenyList`, the deny `removeAll`): not part of this model. Their results are inputs (`Fetched`).
- The deny remove-all (NextDnsTaskRunner.java line 76): only how it ended is an input (`Fetched.denyRemoval`: `Ok`, or a failure that ends the run before the rewrite remove-all). Its own remote calls, retries and pauses are not modelled and use no answers from the script.
- Failures while fetching sources or remote state: these propagate as exceptions in the source, but fetched values are given inputs here, so the model has no such failure.
- `Thread.sleep` and its `InterruptedException`: sleeps are pause events with their durations. An interrupted throttle sleep, which reaches the catch block after a success, is not modelled.
- Logging: purely observational.
- Null values: strings are never null in the model. A null content or name in a fetched rewrite, and a null value in the request map, are not modelled.
- HashMap iteration order: `RequestTable.Values` picks keys nondeterministically. Properties of the create-set hold for every order.
- Environment configuration (EnvironmentVariables.java): plain reads of system variables with no logic.
- `Convergence.CycleConverges`: assumes unique remote ids and models the remote after the cycle as the surviving records in their old order followed by the created ones. It states convergence only for the first record of each requested domain, because later mismatching duplicates can survive (see above).
- Java `int` overflow in `processInBatches` (`i += BATCH_SIZE`, `i + BATCH_SIZE`, NextDnsTaskRunner.java lines 87-88): indices are unbounded in the model. A list within 50 items of `Integer.MAX_VALUE`, where the Java index would wrap, is not modelled.
