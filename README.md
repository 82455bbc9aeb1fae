# LolzLiveBumper: the bump scheduler and its thread store

LolzLiveBumper keeps a configured set of forum threads "bumped": for every thread it
stores when the next bump is due, and a cycle bumps the due threads through the forum's
API. The cycle reschedules each thread from what the API answered: a success, a cooldown,
or a failure with a growing retry delay. This project models that core in Dafny:

- `store.dfy` (module `Store`): the SQLite store of `database.py` as a class `Database`.
  It holds a map `threads` from thread id to `ThreadRow` and an append-only sequence
  `history` of `HistoryRecord`s. Each method is one transaction. `upsert_thread`'s keyword
  arguments are a sequence of `Assignment`s, applied by a loop as the original builds its
  `SET` list. The two listing queries are a selection loop whose result is specified by the
  predicate `Listing`.
- `policy.dfy` (module `Policy`): the pure decisions. `Classify` is how `_bump_thread`
  turns an HTTP answer into an `Outcome`. `Plan` is how `process_thread` turns an outcome
  and the stored failure count into one store write (`Action`).
- `service.dfy` (module `Service`): the class `BumpService` with its `running` flag.
  `BumpThread`, `ProcessThread` and `RunCycle` model one dispatch and the cycle over the
  due threads. `InitializeThreads` reconciles the store with the configured ids. The
  functions `CycleThreads`/`CycleLog` and `Reconciled` specify these loops, and the lemmas
  beside them state what they achieve.
- `report.dfy` (module `Report`): the arithmetic of the post-cycle summary
  (`_notify_summary`) and of the `/status` answer: waits, hours and minutes, the pending
  filter.
- `wrappers.dfy` (module `Wrappers`): `Option`, for nullable columns and missing JSON keys.

The outside world enters as parameters. `now` stands for every clock reading. `jitter`
stands for `random.randint(30, 300)`. A `Dispatch` holds the API's answer to the bump POST
(`Reply`) and the thread-info lookup (`ThreadInfo`). A `Config` holds `BUMP_INTERVAL`,
`RETRY_DELAYS` and `MAX_CONSECUTIVE_FAILURES`. The store file's contents at start-up are
the constructor's parameters. A storage error inside `UpsertThread`, `RecordBumpSuccess` or
`RecordBumpFailure` is their parameter `fault`: the method then leaves both tables as they
were, as the rollback in `_get_connection` does.

Behaviours of the code a reader might not expect:

- A new row's `next_bump_time` defaults to 0 (the schema's `DEFAULT 0`) when the insert
  does not name it.
- A 429 answer and a 401 answer are handled as ordinary failures. The `now + 120` computed
  for a 429 is never read (`Policy.RateLimitTimeDiscarded`).
- The retry table is indexed with the already-incremented failure count, so the first
  entry of a table with more than one entry is never used (`Policy.FirstRetryDelaySkipped`).
- The "too many failures" branch and the cooldown branch write through `upsert_thread`, so
  they append no history record.
- A 403 whose `errors` list is empty raises an `IndexError` inside the `try`. It becomes an
  ordinary failure with the message "list index out of range".
- `record_bump_success` and `record_bump_failure` on an id with no row update nothing but
  still append the history record, since SQLite does not enforce foreign keys by default.

## Model

| member | source | states |
|---|---|---|
| Store.AssignKeepsOthers | database.py:82-84 | one `column = ?` part leaves every other column, the key and both stamps as they were |
| Store.AssignSets | database.py:82-84 | one `column = ?` part gives its column the assigned value whatever the row held before |
| Store.ApplyAllKeepsKey | database.py:79-90 | the `SET` list never touches `thread_id`, `created_at` or `updated_at` |
| Store.ApplyAllKeepsOthers | database.py:79-90 | a column no keyword argument names keeps its value through the whole `SET` list |
| Store.ApplyAllSetsNamed | database.py:79-90 | with distinct keyword arguments, each named column ends with its argument's value |
| Store.UpsertExisting | database.py:79-90 | updating an existing row changes exactly the named columns and stamps `updated_at = now`; key and `created_at` stay |
| Store.UpsertAbsent | database.py:91-99 | inserting a new id yields a row with that id, both stamps `now`, the named values, and the schema defaults (`DEFAULT 0`, `is_active` 1, NULL text) elsewhere |
| Store.FlipsIdempotent | database.py:168-182 | activation and deactivation are idempotent and keep the set of ids; activation sets `is_active` and clears the count, deactivation clears only `is_active` |
| Store.LeastExists | database.py:105-110 | every non-empty set of stored ids has a row of least sort key, so the ordered listing can always take its next row |
| Store.WindowSplits | database.py:192-207 | in any time window, successes plus failures equal all attempts |
| Store.Kept | database.py:210-214 | the surviving log holds exactly the records with `bump_time >= cutoff`, and its length plus the deleted count is the old length |
| Store.KeptDistributes | database.py:210-214 | the deletion acts record by record: pruning a log that was appended to equals pruning both parts |
| Store.QueryStep | database.py:105-110 | taking a remaining id of least key extends a partial ordered listing: rows stay stored, distinct and sorted, and the taken and remaining ids still partition the query |
| Store.Database.constructor | database.py:10-56 | the opened store holds exactly the rows the file already held (none for a new file) |
| Store.Database.GetThread | database.py:65-70 | returns the stored row of the id, or nothing exactly when the id has no row |
| Store.Database.UpsertThread | database.py:72-99 | the row of the id becomes the upserted row (update or insert), no other row changes, the history stays; on a storage fault nothing changes |
| Store.Database.Query | database.py:105-116 | lists the stored rows of exactly the given ids, each once, in ascending key order |
| Store.Database.GetThreadsReadyForBump | database.py:101-110 | lists exactly the active rows with `next_bump_time <= now`, ascending by `next_bump_time`, each once |
| Store.Database.GetAllThreads | database.py:112-116 | lists every stored row once, in strictly ascending `thread_id` order |
| Store.Database.RecordBumpSuccess | database.py:118-138 | stamps the bump, sets the next time, adds one to `bump_count`, clears error and count, and appends one successful record, all or nothing |
| Store.Database.RecordBumpFailure | database.py:140-158 | sets the retry time and error, adds one to the failure count, keeps `bump_count` and `last_bump_time`, and appends one failed record, all or nothing |
| Store.Database.ResetConsecutiveFailures | database.py:160-166 | only the count (to 0) and `updated_at` of that row change |
| Store.Database.DeactivateThread | database.py:168-174 | only `is_active` (to false) and `updated_at` of that row change; no row is removed |
| Store.Database.ActivateThread | database.py:176-182 | only `is_active` (to true), the count (to 0) and `updated_at` of that row change |
| Store.Database.GetStats | database.py:184-208 | counts all rows and active rows; the 24-hour figures count records with `bump_time > now - 86400`, and `failed_24h` is exactly the number of failed attempts |
| Store.Database.CleanupOldHistory | database.py:210-217 | the history loses exactly the records older than the cutoff, in order, the threads stay, and the returned count is the number removed |
| Policy.Decimal | bump_service.py:130-131 | the status code is rendered as decimal digits that denote exactly that code, with no leading zero |
| Policy.Classify | bump_service.py:98-136 | success iff 200 with `status == "ok"`, cooldown iff 403 with a non-empty `errors` list; a success is due after interval plus jitter; a cooldown carries `errors[0]` and the remote time or a full interval; a success carries the body's `message` or "Bumped"; a 403 with an empty `errors` list fails with "list index out of range"; a 429 fails with "Rate Limit", a 401 with an empty message; every other answer fails with "Error " and the decimal status; an exception is a failure with its text |
| Policy.RetryDelay | bump_service.py:169 | the delay is the table entry at the count, or the last entry once the count runs past the table |
| Policy.Plan | bump_service.py:148-172 | a success is recorded with the outcome's own message and next time; a cooldown reschedules to its own time with its message; a failure is recorded as one iff the incremented count stays below the limit, with a delay from the table; otherwise it reschedules a full interval ahead with the "Too many errors: " error |
| Policy.RateLimitTimeDiscarded | bump_service.py:120-122 | the retry time computed for a 429 does not affect what is written |
| Policy.FirstRetryDelaySkipped | bump_service.py:157-169 | an ordinary failure waits the table entry at the incremented count, never the first entry of a longer table |
| Service.RescheduleAssignments | bump_service.py:154-165 | the rescheduling upserts name each column once |
| Service.RescheduledRow | bump_service.py:154-165 | a rescheduling upsert changes exactly the next time, the error, the count (to 0) and `updated_at` |
| Service.SuccessScheduling | bump_service.py:102-106 | after a success the next time is now + interval + the jitter, so it lies in [now + interval + 30, now + interval + 300]; the record carries the body's `message` or "Bumped", the bump is counted and stamped, the failure state cleared, and one successful record is logged |
| Service.CooldownHandling | bump_service.py:152-154 | a cooldown reschedules to the remote time or a full interval, stores `errors[0]`, resets the count, keeps `bump_count`, and logs nothing |
| Service.FailuresAreExhaustive | bump_service.py:102-136 | every answer other than a success or a cooldown is a failure, a 429 with "Rate Limit" and a 401 with an empty message |
| Service.OrdinaryFailure | bump_service.py:168-172 | below the limit, the retry is now plus the delay for the incremented count, the count grows by one, `bump_count` stays, and one failed record is logged |
| Service.TooManyFailures | bump_service.py:157-165 | at the limit, the count restarts at 0, the thread rests a full interval with the "Too many errors: " error, and nothing is logged |
| Service.NextAfterNow | bump_service.py:148-172 | with positive interval and delays, every outcome except a cooldown adopting the remote time schedules the thread strictly after now |
| Service.CycleFrame | bump_service.py:183-186 | a cycle adds and removes no row and leaves every unprocessed thread unchanged |
| Service.CycleApplied | bump_service.py:183-186 | each processed thread ends with exactly the row its own outcome dictates |
| Service.CycleUntouched | bump_service.py:183-186 | a thread listed once is still stored exactly as listed when the cycle reaches it |
| Service.CycleStep | bump_service.py:183-186 | processing one more thread extends the table and the log by that thread's write |
| Service.SeedAssignments | bump_service.py:69-78 | the insert of a new configured thread names each column once |
| Service.SeededRow | bump_service.py:66-78 | a new configured thread gets the defaults with its remote title (or "Unknown") and the remote next time (or now) |
| Service.ReconcileOutcome | bump_service.py:60-91 | after reconciliation every configured id has an active row, every other row is inactive, no row is lost, new rows are seeded, existing rows keep schedule, counts and error, an active configured row is untouched, a reactivated row's failure count restarts at 0, and a deactivated row keeps its count |
| Service.ReconcileIdempotent | bump_service.py:60-91 | reconciling again with the same ids, at any later time, changes nothing |
| Service.FirstPassStep | bump_service.py:66-85 | handling one configured id adds, reactivates or keeps exactly that id's row |
| Service.SecondPassStep | bump_service.py:87-91 | handling one unconfigured stored row deactivates it if it is active and changes nothing else |
| Service.SecondPassSkips | bump_service.py:87-89 | a configured id met by the second loop is left alone |
| Service.PassesCompose | bump_service.py:60-91 | the first loop ends where the second starts, and the second ends at the reconciled table |
| Service.BumpService.constructor | bump_service.py:27-34 | a new service runs, over a store opened on the file's existing rows |
| Service.BumpService.Stop | bump_service.py:278-281 | a shutdown request clears `running` |
| Service.BumpService.BumpThread | bump_service.py:93-136 | returns the classification of the answer, and clears `running` exactly on a 401 |
| Service.BumpService.ProcessThread | bump_service.py:138-174 | returns the outcome tagged with the thread, and the thread's row and the log change exactly as the planned write says |
| Service.BumpService.RunCycle | bump_service.py:176-190 | processes a prefix of the ready listing in order, each thread once; the store is the cycle fold over that prefix; it stops early only once `running` is false, it processes nothing when `running` was already false, and only the last processed thread can have drawn a 401 |
| Service.BumpService.ProcessReady | bump_service.py:183-187 | the loop dispatches the listed threads in order while `running` holds; it stops early only once `running` is false, and a 401 can only come from the last thread it processed |
| Service.BumpService.InitializeThreads | bump_service.py:60-91 | the thread table becomes the reconciled table and the history is untouched |
| Service.BumpService.AddConfigured | bump_service.py:66-85 | the first loop adds or reactivates every configured id and touches no other row |
| Service.BumpService.DeactivateUnconfigured | bump_service.py:87-91 | the second loop deactivates every active stored row whose id is not configured |
| Report.WaitSeconds | bump_service.py:239 | the wait is never negative, is 0 exactly when the next time has passed, and otherwise is the time left |
| Report.Clock | bump_service.py:244 | the minutes lie in 0..59, and hours and minutes account for the wait to within a minute |
| Report.ClockUnique | bump_service.py:244 | hours and minutes are the only such split of the wait |
| Report.StatusOf | bump_service.py:239-245 | the status is READY exactly when the next time has passed; otherwise it shows the clock of the time left |
| Report.Filter | bump_service.py:197-200 | the comprehension keeps exactly the rows its test accepts, and never more rows than it was given |
| Report.FilterAppend | bump_service.py:233 | a list comprehension filter works element by element: it keeps the order of its input |
| Report.FilterOne | bump_service.py:233 | a single row is kept exactly when the test accepts it |
| Report.StatusLines | bump_service.py:232-247 | one line per active row, giving its id and its status (READY, or the hours and minutes left), READY exactly for the due rows |
| Report.StatusLinesAppend | bump_service.py:232-247 | the lines follow the listing's order: the lines of a concatenated listing are those of its parts |
| Report.Pending | bump_service.py:197-200 | the pending list holds exactly the active rows whose next time is still ahead, each with a positive wait |
| Report.WaitLabelOf | bump_service.py:215-217 | hours are left out exactly when the wait is under an hour; the hours and minutes shown are the whole hours of the wait and the whole minutes left over (minutes in 0..59) |
| Report.BumpedIds | bump_service.py:193 | the bumped list names exactly the threads whose outcome was a success |
| Report.BumpedIdsAppend | bump_service.py:193 | the bumped list is built result by result, in result order: that of a concatenation is those of its parts |
| Report.BumpedIdsOne | bump_service.py:193 | one result contributes its id exactly when it is a success, so the list holds one entry per success |
| Report.SummaryOf | bump_service.py:192-218 | the bumped part is the bumped list of the results, one id per success in result order, so its length is the success count shown; the pending part has one entry per pending row; every pending entry is the id and wait label of an active row with a next time still ahead, and every such row has its entry |
| Report.PendingLinesOfListing | bump_service.py:197-218 | every pending line is the id and wait label of an active row of the listing with a next time ahead, and every such row has a line |
| Report.PendingLinesAppend | bump_service.py:211-218 | the pending lines are built row by row: the lines of concatenated rows are those of the parts, in order |
| Report.SummaryOfOne | bump_service.py:197-218 | a single row gives exactly one pending entry, its id and wait label, when it is active with its next time ahead, and none otherwise |
| Report.SummaryFollowsListing | bump_service.py:197-218 | the pending entries follow the listing's order: those of a concatenated listing are those of its parts |

## Left out

- HTTP transport: the aiohttp session (`get_session`, `close`'s session handling) and the
  two requests. The POST's answer and the thread-info lookup are inputs (`Reply`,
  `ThreadInfo`). Whether `_get_thread_info` answered 200, 429 or raised only decides
  whether a `ThreadInfo` is present.
- JSON decoding: a body that is not JSON makes `response.json()` raise, which is a
  `Reply.Raised`. A JSON body that is not an object is not a separate case: the 429, 401
  and other-status branches never read it, so such an answer is an `Answered` reply with an
  empty `Body`; where the 200 and 403 branches read it and Python raises, it is the
  `Reply.Raised` with that error's text. An `errors` value that is not a list is not
  modelled.
- The Telegram bot: `send_message`, the admin-id check, the `/start` handler, title
  truncation and the HTML text. Only the numbers those messages show are modelled.
- Process wiring: `main`, the signal handler (other than its effect on `running`, modelled
  by `Stop`), `bump_loop` with its retry sleep, all `asyncio.sleep` delays and logging.
- Concurrency: a signal clearing `running` while a dispatch is under way, and a second
  `Database` reading the file during a write.
- SQLite mechanics: connections, DDL, indexes and WAL. The history's auto-increment id is
  the record's position in `history`.
- Store.Database.Query: among rows with equal `next_bump_time` the order is left open,
  as SQL leaves it.
- Store.Database.ResetConsecutiveFailures, Store.Database.DeactivateThread,
  Store.Database.ActivateThread and Store.Database.CleanupOldHistory: a storage error
  (rollback and re-raise) is not modelled; these always commit.
- Store.Database.CleanupOldHistory: the default of 30 days is not modelled (`days` is
  always given), and the deleted count, which the original only logs, is returned.
- Service.BumpService.InitializeThreads: storage errors are not modelled; its writes pass
  no fault.
- Service.BumpService.ProcessThread: storage errors are not modelled inside a cycle. The
  write methods model a fault as a rollback, but the service always passes no fault. In
  the original such an error propagates out of `run_cycle` into `bump_loop`.
- Service.BumpService.ProcessThread: all clock readings of one dispatch are the one `now`
  of its `Dispatch`, although the original reads the clock several times.
- Service.BumpService.InitializeThreads: all clock readings are the one `now`, although
  the original reads the clock again in every write and sleeps `API_DELAY` after each
  insert, so a new row's `created_at` and `updated_at` come later there than the `now`
  that seeds its `next_bump_time`.
- Service.BumpService.InitializeThreads: the thread-info lookup is a function of the id
  (`infoOf`). The order in which the configured set is walked is left open.
- Service.BumpService.RunCycle: the summary is computed by `Report.SummaryOf` from the
  results and the listing; the cycle does not call it, since sending it is I/O.
- Malformed thread-info data: in the original, a `thread` or `permissions` value that is
  null or not an object makes the chained `.get` raise. In the cooldown branch that
  happens after the cooldown flag is set, so `process_thread` writes a null next time and
  the row is never due again; in `initialize_threads` it escapes uncaught. `ThreadInfo`
  holds only well-formed lookups, so neither path is modelled.
- The configuration module is not part of this model: its three tunables are a `Config`
  value, with a non-empty retry table.
