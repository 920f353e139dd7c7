# Bi-temporal worker-resource versioning engine, in Dafny

This project models the core of the worker-resource tracking service.

Each worker owns resource *chains*. A chain is identified by its RID and is a sequence of versions `1..N`. Every version carries two ranges:

- a **business** range `[res_start, res_end)` of dates;
- a **processing** range `[proc_start, proc_end)` of timestamps.

An unbounded end is a sentinel value: `INFINITY_DATE` (9999-12-31) or `INFINITY_DATETIME` (9999-12-31 23:59:00).

The model has seven modules:

- `Results`: the outcome types. Python's exceptions become `Err` values, and a validator returns a `Check`.
- `Models`: the two time axes, the sentinels, and the `Worker`, `Resource` and `ResourceWithWorker` records.
  - Dates are Python ordinals. Timestamps are microseconds since 0001-01-01 00:00.
  - `INFINITY_DATE` is the top of the business axis. `INFINITY_DATETIME` is *not* the top of the processing axis: one minute of 9999 lies after it.
- `Validation`: the temporal validator, consisting of the range checks and the required-field check with Python's `str.strip()` whitespace set.
- `Repositories`: the store and its repository operations.
  - The store holds the `worker` and `resource` tables as maps from primary key to row, plus the WID serial and `resource_rid_seq`.
  - An insert that would break the primary key or the foreign key is reported as an error.
  - Sequence values are never handed out twice, even when the transaction that drew them rolls back.
- `Services`: the version transition engine (`create_worker_and_resource`, `update_resource`) and the three temporal queries. Each service call is one atomic step `Store -> (Store, Result)`. The wall clock is an explicit parameter `now` / `today`.
- `Chains`: the chain invariant `Valid(st, clock)` and the proofs that Create and Update preserve it when the clock does not run backwards. From the invariant follow the chain shape (versions `1..N`, exactly one open version, the highest), one version per instant, and the open version being the one `get_current_version` returns.
- `Histories`: arbitrary runs of Create and Update calls, and what they imply:
  - the invariant holds after every run;
  - chains are independent of each other;
  - returned identities are distinct;
  - N open-ended updates after a Create give versions `1..N+1`;
  - a past as-of query answers the same after an update;
  - an as-of query returns at most one version per chain.

Edge cases of the code that the model keeps as written:

- `update_proc_end` on an absent or already-closed row changes nothing and reports nothing (`UpdateProcEnd`).
- `create_worker_and_resource` takes no `res_end`. Version 1 always runs to `INFINITY_DATE`.
- The processing-range check of Update compares `now` with `INFINITY_DATETIME`. It fails when `now` lies in the last 59.999999 seconds of 9999-12-31, and the model keeps that error path.
- At exactly `now == INFINITY_DATETIME`, Update passes that check. It then closes the old version at the sentinel, which leaves two open versions (`UpdateAtSentinelLeavesTwoOpen`). Every invariant lemma therefore requires `now < INFINITY_DATETIME`.
- The database driver (psycopg2) refuses a string parameter containing U+0000 before sending the statement. A worker insert with such a name, org or type therefore fails with `NulCharacter`, draws no WID and changes nothing.

`get_current_version` fetches "a" row whose `proc_end` is the sentinel. The model returns the lowest-numbered such row, and its contract promises only an open row of that chain. Under the invariant the open row is unique (`OpenVersionUnique`, `OpenIsCurrent`), so the choice does not matter.

`validate_required_field` tests `not value.strip()`. `ValidateRequiredField` tests `IsBlank` directly, and `StripEmptyIffBlank` proves that the two tests agree.

## Model

| member | source | states |
|---|---|---|
| `Models.InfinityDateIsTop` | app/models.py:7 | No date lies after `INFINITY_DATE`, so it bounds every business range from above |
| `Models.InfinityDateTimeIsNotTop` | app/models.py:8 | `INFINITY_DATETIME` (23:59:00) lies strictly below the last representable instant of 9999-12-31 |
| `Models.Join` | app/models.py:32-44 | A joined row carries the resource's seven columns and the worker's four unchanged: both records can be read back from it |
| `Validation.ValidateDateRange` | app/validation.py:11-30 | Fails if and only if both bounds are present and start > end; the error message names both fields; an absent bound always passes and equal bounds pass |
| `Validation.ValidateProcessingTimeRange` | app/validation.py:33-44 | It is the generic range check with the names `proc_start`/`proc_end`, so it fails exactly when start > end |
| `Validation.ValidateBusinessTimeRange` | app/validation.py:47-58 | It is the generic range check with the names `res_start`/`res_end`, so it fails exactly when start > end |
| `Validation.Strip` | app/validation.py:75 | `str.strip()` returns the slice `s[i..j]` of its input such that everything before `i` and from `j` on is whitespace and the slice neither starts nor ends with whitespace: exactly the outer whitespace is removed |
| `Validation.StripEmptyIffBlank` | app/validation.py:75 | `s.strip()` is empty exactly when every character of `s` is Python whitespace |
| `Validation.ValidateRequiredField` | app/validation.py:61-76 | Fails exactly on `None` ("is missing") and on an empty or whitespace-only string ("cannot be empty"); every other string and every non-string passes |
| `Repositories.CreateWorker` | app/repositories.py:16-35 | An attribute containing U+0000 is refused by the driver before the insert: nothing changes and no WID is drawn. Otherwise the insert succeeds exactly when the drawn WID is free, and then returns that WID with the given attributes stored under it; the serial advances even on failure; the resource table is untouched |
| `Repositories.CreateWorkers` | app/repositories.py:16-35 | The WIDs returned by successive creates are strictly increasing, hence pairwise distinct; each was drawn during these calls and names a stored worker; exactly one WID is drawn per row the driver can send (`SendableCount`), so one per row when every row is sendable; every existing worker row is kept unchanged |
| `Repositories.GetByWid` | app/repositories.py:38-62 | Finds a worker exactly when that WID is stored, and returns it with that WID and its stored attributes |
| `Repositories.Exists` | app/repositories.py:87-103 | Holds exactly when `get_by_wid` finds a worker |
| `Repositories.CreateWorkerThenGet` | app/repositories.py:16-62 | A created worker is found by `get_by_wid` and `exists`, with the attributes given; lookups of every other WID answer as before |
| `Repositories.InsertResource` | app/repositories.py:146-153 | The insert succeeds exactly when the `(RID, version)` key is free and the WID names a worker, and then adds only that row; otherwise it reports the duplicate key or the foreign-key violation, in that order |
| `Repositories.ResourceValidation` | app/repositories.py:132-141 | The checks pass exactly when all five fields are present and both ranges are ordered; any failure is a validation error |
| `Repositories.CreateResource` | app/repositories.py:118-155 | Invalid arguments fail before anything changes, and no RID is drawn; a valid call draws a RID and succeeds exactly when the key is free and the worker exists, storing the row as version 1 and returning `(rid, 1)`; a failure leaves the table unchanged |
| `Repositories.CreateResources` | app/repositories.py:110-155 | The RIDs of successive creates are strictly increasing, hence pairwise distinct; each was drawn during these calls and has a stored version 1; no existing row is lost |
| `Repositories.CreateResourceThenGet` | app/repositories.py:118-187 | A created resource reads back through `get_by_rid_version(rid, 1)` with exactly the given fields |
| `Repositories.GetByRidVersion` | app/repositories.py:158-187 | Finds a row exactly when the primary key `(rid, version)` is stored, and returns that row's columns under that key |
| `Repositories.SortedKeys` | app/repositories.py:280-281 | Lists every key of a set exactly once, in strictly increasing `(RID, version)` order |
| `Repositories.GetAllVersions` | app/repositories.py:221-250 | Returns every stored version of the chain, each once, as stored, in strictly ascending version order |
| `Repositories.GetAll` | app/repositories.py:270-295 | Returns every stored row, each once, as stored, in strictly ascending `(RID, version)` order |
| `Repositories.GetCurrentVersion` | app/repositories.py:190-218 | Returns `None` exactly when no version of the chain has `proc_end = INFINITY_DATETIME`; otherwise it returns a stored, open version of that chain |
| `Repositories.UpdateProcEnd` | app/repositories.py:253-267 | Changes only the `proc_end` of the row `(rid, version)`; every other column and row, the worker table and both sequences are unchanged; an absent row makes it a no-op |
| `Repositories.CloseThenGet` | app/repositories.py:262-267 | A version closed at a finite instant reads back with only its `proc_end` changed and is no longer open |
| `Services.CreateValidation` | app/services.py:34-41 | The checks pass exactly when name, org and type are present and non-blank and `res_start` is present; every failure is a validation error |
| `Services.CreateWorkerAndResource` | app/services.py:32-70 | Invalid arguments fail and change nothing. An attribute the driver cannot send (one containing U+0000) fails with nothing changed and nothing drawn. The call succeeds exactly when the arguments are valid and sendable, the WID and RID are free and `now` is not after `INFINITY_DATETIME`. It then returns `(wid, rid, 1)` and stores the worker plus version 1 `[res_start, INFINITY_DATE) x [now, INFINITY_DATETIME)`. A failure leaves both tables unchanged but may consume sequence values |
| `Services.CreateRangeCheckNeverFails` | app/services.py:41 | The business check of Create compares with `INFINITY_DATE` and cannot fail |
| `Services.CreateThenRead` | app/services.py:63-70 | After a successful Create, version 1 and the new worker read back through the repository lookups with the given fields |
| `Services.UpdateResource` | app/services.py:73-116 | A chain without an open version fails with not-found and leaves the store unchanged. A merged range with start > end fails with a validation error and leaves the store unchanged. Success holds exactly when the merged range is ordered, `now` is not after `INFINITY_DATETIME` and key `k+1` is free. Success closes version `k` at `now` and inserts version `k+1` from `now`, with the same worker and each omitted business bound copied from `k`. Nothing else changes, and workers and sequences are untouched |
| `Services.JoinedRows` | app/services.py:126-129 | Contains the joined row of every version whose worker exists, and nothing else |
| `Services.OpenResourceRecords` | app/services.py:137-149 | A version appears exactly when its `proc_end` is `INFINITY_DATETIME` |
| `Services.ActiveResources` | app/services.py:119-134 | A version appears exactly when it is open and `res_start <= today < res_end` |
| `Services.AsOfQuery` | app/services.py:152-168 | A version appears exactly when `proc_start <= P < proc_end` and `res_start <= D < res_end`, where P defaults to `now` |
| `Services.ActiveIsOpenOnToday` | app/services.py:130-131 | The active rows are exactly the open rows whose business range contains today |
| `Chains.EmptyStoreIsValid` | app/database.py:43-70 | The freshly created schema satisfies the chain invariant |
| `Chains.DrawPreservesValid` | app/services.py:47-61 | Drawing sequence values without storing rows, as a rolled-back Create does, keeps the invariant |
| `Chains.FoundPreservesValid` | app/services.py:47-68 | Adding a fresh worker and version 1 of a fresh chain, open on both axes from `now`, keeps the invariant |
| `Chains.CreatePreservesValid` | app/services.py:32-70 | Every Create, whether it succeeds or fails, keeps the invariant at the new clock |
| `Chains.AdvancePreservesValid` | app/services.py:103-114 | Closing the open last version at `now` and appending its successor from `now` keeps the invariant, for a clock that has not run backwards and lies before the sentinel |
| `Chains.UpdateIsAdvance` | app/services.py:93-114 | A successful update is exactly that close-and-append step applied to the current version and the merged row |
| `Chains.UpdatePreservesValid` | app/services.py:73-116 | Every Update, whether it succeeds or fails, keeps the invariant for a monotone clock before the sentinel |
| `Chains.CurrentIsLast` | app/services.py:79-95 | Under the invariant the version `update_resource` reads is the last of its chain. Its worker exists, its range is ordered and it started no later than the clock |
| `Chains.ChainHasCurrent` | app/services.py:79-87 | Under the invariant every non-empty chain has an open version, so not-found means the chain does not exist |
| `Chains.OpenVersionUnique` | app/repositories.py:203-207 | Under the invariant a chain has at most one version with `proc_end = INFINITY_DATETIME` |
| `Chains.OpenIsCurrent` | app/repositories.py:190-218 | Under the invariant an open version is exactly what `get_current_version` returns |
| `Chains.ChainShape` | app/services.py:93-114 | Under the invariant a non-empty chain holds exactly the versions `1..N`, and exactly version N is open |
| `Chains.ProcessingOrdered` | app/services.py:103-113 | Under the invariant every earlier version's processing range ends no later than a later version's starts |
| `Chains.ChainWid` | app/services.py:109-113 | Under the invariant all versions of a chain belong to the same worker, since each update copies the current version's WID |
| `Chains.OneVersionAtEachInstant` | app/services.py:160-166 | Under the invariant at most one version of a chain is current at any processing instant |
| `Histories.RunPreservesValid` | app/services.py:32-116 | Any run of Creates and Updates whose clock never runs backwards and stays before the sentinel keeps the invariant |
| `Histories.ReachableChainsAreWellShaped` | app/services.py:32-116 | In every store reachable from the empty schema, every chain is `1..N` with exactly the highest version open and returned as current |
| `Histories.UpdateSucceeds` | app/services.py:86-101 | On a valid store, with a clock before the sentinel, an update of an existing chain succeeds exactly when the merged business range is ordered |
| `Histories.CreateSucceeds` | app/services.py:32-70 | On a valid store the drawn WID and RID are always free, so a Create succeeds exactly when its arguments are valid and sendable and `now` is not after `INFINITY_DATETIME` |
| `Histories.UpdateWithoutFieldsCopies` | app/services.py:94-95 | An update that supplies neither bound succeeds and stores a copy of the current version, renumbered `k+1` and starting at `now` |
| `Histories.UpdateAtSentinelLeavesTwoOpen` | app/services.py:101 | An update that runs at exactly `INFINITY_DATETIME` passes the processing check and leaves both versions `k` and `k+1` open |
| `Histories.UpdateLeavesOtherChains` | app/services.py:103-106 | An update of one chain leaves the rows, the version listing and the current version of every other chain unchanged |
| `Histories.CreateLeavesOtherChains` | app/services.py:63-68 | A Create leaves the rows, the version listing and the current version of every existing chain unchanged |
| `Histories.CreateAll` | app/services.py:32-70 | Successive Creates only advance the sequences and only add workers and versions: every existing worker row and resource version is left unchanged |
| `Histories.CreateAllIdentities` | app/services.py:47-55 | The `(wid, rid, 1)` results of successive Creates are strictly increasing in both WID and RID, hence pairwise distinct, and each names a stored worker and version 1 |
| `Histories.OpenEndedUpdateSucceeds` | app/services.py:95 | An update that omits `res_end` on a chain whose open version runs to `INFINITY_DATE` succeeds, and the new open version runs to `INFINITY_DATE` too |
| `Histories.OpenEndedUpdatesAllSucceed` | app/services.py:93-114 | A run of such updates on one chain all succeed: after m of them, version `v+m` is open and open-ended, and the invariant holds |
| `Histories.CreateThenUpdates` | app/services.py:32-116 | After a Create with valid, sendable arguments and N open-ended updates of its chain, the chain holds exactly versions `1..N+1`, and exactly version `N+1` is open and current |
| `Histories.AsOfAtMostOnePerChain` | app/services.py:160-166 | On a valid store an as-of query returns at most one row per RID |
| `Histories.OpenAtMostOnePerChain` | app/services.py:141-147 | On a valid store the open records hold at most one row per RID |
| `Histories.OpenRecordsAreCurrentVersions` | app/services.py:137-149 | On a valid store the open records are exactly the current versions of all chains |
| `Histories.AsOfNowIsActive` | app/services.py:154-165 | On a valid store an as-of query for an instant not before the clock and before the sentinel answers exactly as the active query for that date |
| `Histories.AdvanceKeepsHistory` | app/services.py:103-114 | A close-and-append at `now` does not change which versions an as-of query for an earlier instant sees. The only row that differs is the closed version, which now shows `proc_end = now` |
| `Histories.UpdateKeepsHistory` | app/services.py:103-114 | Any Update leaves every as-of query for an instant before `now` seeing the same versions; only the closed version's `proc_end` differs |
| `Histories.CreateKeepsHistory` | app/services.py:63-68 | Any Create leaves every as-of query for an instant before `now` unchanged |
| `Histories.AsOfAfterUpdate` | app/services.py:108-114 | After a successful update, an as-of query for an instant from `now` on sees the chain only through version `k+1`. It sees the chain exactly when the date lies in the merged business range |

## Left out

- Flask routes, JSON handling, ISO date parsing and HTTP status mapping (`app/routes.py`) are transport plumbing and are not modelled.
- The route's rule that an update names at least one of `res_start`/`res_end` is not a precondition here. At the service level `update_resource(rid, None, None)` is legal and makes a copy version (`UpdateWithoutFieldsCopies`).
- Connections, commit and rollback (`app/database.py`) become one atomic step per service call. A failed call keeps both tables and may consume sequence values. The schema DDL becomes `EmptyStore` together with the key maps.
- Concurrency is out of scope because the model is sequential. Two concurrent updates of one chain, which the code does not lock against, are not modelled.
- `datetime.now()` and `date.today()` are parameters (`now`, `today`). The invariant lemmas require calls whose instants never decrease and lie before `INFINITY_DATETIME`. The code assumes this without checking.
- `validate_date_format` and `validate_datetime_format` parse strings with `strptime`. The engine does not use them, so they are not modelled.
- `get_orgs` and `get_worker_types` read reference tables outside the engine, and are not modelled.
- `WorkerService.create_worker` performs the same insert as `WorkerRepository.create`. `Repositories.CreateWorker` models both.
- `WorkerRepository.get_all` lists workers without any ordering or filter, and is not modelled.
- Query results carry no `ORDER BY` and are modelled as sets, so duplicate result rows and row order are not represented.
- `Repositories.CreateWorker`: does not fail when the WID passes 2147483647. WID is a `SERIAL` (app/database.py:45), so PostgreSQL would reject such a value with "integer out of range". The model's counters are unbounded, because a store would need more than two billion rows to reach that point.
- `Repositories.CreateResource`: does not fail when the RID or version passes 2147483647. RID and version are `INTEGER` (app/database.py:55-56), while `resource_rid_seq` is a `bigint` sequence (app/database.py:69) and can hand out larger values. The reason is the same as above.
- `Services.CreateWorkerAndResource`: its "succeeds exactly when" leaves out the same WID and RID overflow failures.
- `Services.UpdateResource`: its "succeeds exactly when" leaves out the failure at version 2147483648 of one chain.
- `Repositories.CreateWorker`: `name`, `org` and `type` are `TEXT NOT NULL` (app/database.py:46-48). `WorkerRepository.create` called with `None` fails on that constraint, but the model's string parameters cannot be `None`. At the service level `None` is rejected earlier by `validate_required_field`, which is modelled.
- `Services.CreateWorkerAndResource`: `name`, `org` and `type` are modelled as strings only. `validate_required_field` passes every non-string value, and the route passes JSON values through unchanged, so a number such as `{"name": 5}` reaches the INSERT, where PostgreSQL stores its text form. The model cannot express that input.
- Python's `str.isspace()` set is written out for the characters it covers. Unicode normalisation and encodings are not modelled.
- `Repositories.GetCurrentVersion`: promises only "an open version of the chain", like the SQL. Which open row `fetchone` returns when there are several is unspecified, so the model returns the lowest-numbered one.
