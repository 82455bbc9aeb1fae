/**
 * The bump service of bump_service.py: one dispatch (`_bump_thread` + `process_thread`),
 * the cycle over the due threads (`run_cycle`) and the start-up reconciliation of the store
 * with the configured thread ids (`initialize_threads`). The remote endpoint, the clock and
 * the random jitter are inputs: `Dispatch` is everything the world contributes when one
 * thread is bumped.
 */
module Service {
  import opened Wrappers
  import opened Store
  import opened Policy

  /** What the world answers when a thread is dispatched, and when. */
  datatype Dispatch = Dispatch(reply: Reply, info: Option<ThreadInfo>, jitter: int, now: int)

  /** The dictionary `process_thread` returns: the outcome, tagged with the thread. */
  datatype Processed = Processed(threadId: int, title: Option<string>, outcome: Outcome)

  function OutcomeOf(cfg: Config, d: Dispatch): Outcome {
    Classify(cfg, d.reply, d.now, d.jitter, d.info)
  }

  function ActionOf(cfg: Config, row: ThreadRow, d: Dispatch): Action
    requires ValidConfig(cfg)
  {
    Plan(cfg, OutcomeOf(cfg, d), row.consecutiveFailures, d.now)
  }

  /** The keyword arguments of the two rescheduling `upsert_thread` calls. */
  function RescheduleAssignments(nextBumpTime: int, lastError: string): (a: seq<Assignment>)
    ensures DistinctColumns(a)
  {
    [SetNextBumpTime(nextBumpTime), SetLastError(Some(lastError)), SetConsecutiveFailures(0)]
  }

  /** The stored row after `action` was applied to the existing `row`. */
  function RowAfter(row: ThreadRow, action: Action, now: int): ThreadRow {
    match action
    case RecordSuccess(_, t) => BumpedRow(row, t, now)
    case RecordFailure(e, t) => FailedRow(row, e, t, now)
    case Reschedule(t, e) => ApplyAll(row, RescheduleAssignments(t, e)).(updatedAt := now)
  }

  /** The history rows `action` appends. */
  function LogAfter(id: int, action: Action, now: int): seq<HistoryRecord> {
    match action
    case RecordSuccess(m, _) => [HistoryRecord(id, now, true, m)]
    case RecordFailure(e, _) => [HistoryRecord(id, now, false, e)]
    case Reschedule(_, _) => []
  }

  /** A rescheduling upsert changes exactly the next time, the error, the count and the stamp. */
  lemma RescheduledRow(row: ThreadRow, t: int, e: string, now: int)
    ensures RowAfter(row, Reschedule(t, e), now)
         == row.(nextBumpTime := t, lastError := Some(e), consecutiveFailures := 0, updatedAt := now)
  {
    var a := RescheduleAssignments(t, e);
    assert [a[0]][..0] == [];
    assert ApplyAll(row, [a[0]]) == Assign(row, a[0]);
    assert [a[0], a[1]][..1] == [a[0]];
    assert ApplyAll(row, [a[0], a[1]]) == Assign(Assign(row, a[0]), a[1]);
    assert a[..2] == [a[0], a[1]];
    assert ApplyAll(row, a) == Assign(Assign(Assign(row, a[0]), a[1]), a[2]);
  }

  /** Success: the bump is counted and logged, the failure state cleared, the next time jittered. */
  lemma SuccessScheduling(cfg: Config, row: ThreadRow, d: Dispatch)
    requires ValidConfig(cfg) && MinJitter <= d.jitter <= MaxJitter
    requires d.reply.Answered? && d.reply.httpStatus == 200 && d.reply.body.status == Some("ok")
    ensures var r := RowAfter(row, ActionOf(cfg, row, d), d.now);
      && r.nextBumpTime == d.now + cfg.bumpInterval + d.jitter
      && d.now + cfg.bumpInterval + MinJitter <= r.nextBumpTime <= d.now + cfg.bumpInterval + MaxJitter
      && r.bumpCount == row.bumpCount + 1 && r.lastBumpTime == d.now
      && r.consecutiveFailures == 0 && r.lastError == None
    ensures LogAfter(row.threadId, ActionOf(cfg, row, d), d.now)
         == [HistoryRecord(row.threadId, d.now, true, d.reply.body.message.GetOr("Bumped"))]
  {
  }

  /** Cooldown: rescheduled to the remote time (or a full interval), error kept, count reset, nothing logged. */
  lemma CooldownHandling(cfg: Config, row: ThreadRow, d: Dispatch)
    requires ValidConfig(cfg)
    requires d.reply.Answered? && d.reply.httpStatus == 403
    requires d.reply.body.errors.Some? && |d.reply.body.errors.value| > 0
    ensures var r := RowAfter(row, ActionOf(cfg, row, d), d.now);
      && r.nextBumpTime == RemoteNextTime(d.info).GetOr(d.now + cfg.bumpInterval)
      && r.consecutiveFailures == 0 && r.lastError == Some(d.reply.body.errors.value[0])
      && r.bumpCount == row.bumpCount && r.lastBumpTime == row.lastBumpTime && r.isActive == row.isActive
    ensures LogAfter(row.threadId, ActionOf(cfg, row, d), d.now) == []
  {
    var o := OutcomeOf(cfg, d);
    RescheduledRow(row, o.nextTime, o.message, d.now);
  }

  /** Every answer that is neither a success nor a cooldown is handled as an ordinary failure. */
  lemma FailuresAreExhaustive(cfg: Config, d: Dispatch)
    requires !(d.reply.Answered? && d.reply.httpStatus == 200 && d.reply.body.status == Some("ok"))
    requires !(d.reply.Answered? && d.reply.httpStatus == 403 && d.reply.body.errors.Some? && |d.reply.body.errors.value| > 0)
    ensures OutcomeOf(cfg, d).Failed?
    ensures d.reply.Answered? && d.reply.httpStatus == 429 ==> OutcomeOf(cfg, d).message == "Rate Limit"
    ensures IsFatal(d.reply) ==> OutcomeOf(cfg, d).message == ""
  {
  }

  /** Ordinary failure: retry after the table's delay for the incremented count, one failure logged. */
  lemma OrdinaryFailure(cfg: Config, row: ThreadRow, d: Dispatch)
    requires ValidConfig(cfg) && OutcomeOf(cfg, d).Failed?
    requires row.consecutiveFailures + 1 < cfg.maxConsecutiveFailures
    ensures var r := RowAfter(row, ActionOf(cfg, row, d), d.now);
      && r.nextBumpTime == d.now + RetryDelay(cfg, row.consecutiveFailures + 1)
      && r.consecutiveFailures == row.consecutiveFailures + 1
      && r.lastError == Some(OutcomeOf(cfg, d).message)
      && r.bumpCount == row.bumpCount && r.lastBumpTime == row.lastBumpTime
    ensures LogAfter(row.threadId, ActionOf(cfg, row, d), d.now)
         == [HistoryRecord(row.threadId, d.now, false, OutcomeOf(cfg, d).message)]
  {
  }

  /** Too many failures: the count restarts at zero, a full interval of rest, nothing logged. */
  lemma TooManyFailures(cfg: Config, row: ThreadRow, d: Dispatch)
    requires ValidConfig(cfg) && OutcomeOf(cfg, d).Failed?
    requires row.consecutiveFailures + 1 >= cfg.maxConsecutiveFailures
    ensures var r := RowAfter(row, ActionOf(cfg, row, d), d.now);
      && r.nextBumpTime == d.now + cfg.bumpInterval
      && r.consecutiveFailures == 0
      && r.lastError == Some(TooManyErrorsPrefix + OutcomeOf(cfg, d).message)
      && r.bumpCount == row.bumpCount && r.isActive == row.isActive
    ensures LogAfter(row.threadId, ActionOf(cfg, row, d), d.now) == []
  {
    RescheduledRow(row, d.now + cfg.bumpInterval, TooManyErrorsPrefix + OutcomeOf(cfg, d).message, d.now);
  }

  /**
   * With a positive interval and positive delays, every outcome schedules the thread
   * strictly after the moment it was processed, except a cooldown that adopts the remote
   * `next_available_time`, which the service takes as given.
   */
  lemma NextAfterNow(cfg: Config, row: ThreadRow, d: Dispatch)
    requires ValidConfig(cfg) && cfg.bumpInterval > 0 && MinJitter <= d.jitter <= MaxJitter
    requires forall i :: 0 <= i < |cfg.retryDelays| ==> cfg.retryDelays[i] > 0
    requires !(OutcomeOf(cfg, d).Cooldown? && RemoteNextTime(d.info).Some?)
    ensures RowAfter(row, ActionOf(cfg, row, d), d.now).nextBumpTime > d.now
  {
    var a := ActionOf(cfg, row, d);
    if a.Reschedule? {
      RescheduledRow(row, a.nextBumpTime, a.lastError, d.now);
    }
  }

  /** The thread table after the rows of `rows` were processed in order. */
  function CycleThreads(cfg: Config, threads: map<int, ThreadRow>, rows: seq<ThreadRow>, world: int -> Dispatch): map<int, ThreadRow>
    requires ValidConfig(cfg)
    decreases |rows|
  {
    if rows == [] then threads
    else
      var last := rows[|rows| - 1];
      var d := world(last.threadId);
      CycleThreads(cfg, threads, rows[..|rows| - 1], world)[last.threadId := RowAfter(last, ActionOf(cfg, last, d), d.now)]
  }

  /** The history `log` after the rows of `rows` were processed in order. */
  function CycleLog(cfg: Config, log: seq<HistoryRecord>, rows: seq<ThreadRow>, world: int -> Dispatch): seq<HistoryRecord>
    requires ValidConfig(cfg)
    decreases |rows|
  {
    if rows == [] then log
    else
      var last := rows[|rows| - 1];
      var d := world(last.threadId);
      CycleLog(cfg, log, rows[..|rows| - 1], world) + LogAfter(last.threadId, ActionOf(cfg, last, d), d.now)
  }

  /** A cycle adds no row and removes none, and leaves the threads it did not process alone. */
  lemma {:induction false} CycleFrame(cfg: Config, threads: map<int, ThreadRow>, rows: seq<ThreadRow>, world: int -> Dispatch)
    requires ValidConfig(cfg) && forall i :: 0 <= i < |rows| ==> rows[i].threadId in threads
    ensures CycleThreads(cfg, threads, rows, world).Keys == threads.Keys
    ensures forall id :: id in threads && id !in IdsOf(rows) ==> CycleThreads(cfg, threads, rows, world)[id] == threads[id]
    decreases |rows|
  {
    if rows != [] {
      var init := rows[..|rows| - 1];
      var last := rows[|rows| - 1];
      assert rows == init + [last];
      IdsOfSnoc(init, last);
      CycleFrame(cfg, threads, init, world);
    }
  }

  /** Each processed thread, listed once, ends up with the row its own outcome dictates. */
  lemma {:induction false} CycleApplied(cfg: Config, threads: map<int, ThreadRow>, rows: seq<ThreadRow>, world: int -> Dispatch, k: nat)
    requires ValidConfig(cfg) && k < |rows|
    requires forall i, j :: 0 <= i < j < |rows| ==> rows[i].threadId != rows[j].threadId
    ensures rows[k].threadId in CycleThreads(cfg, threads, rows, world)
    ensures var d := world(rows[k].threadId);
      CycleThreads(cfg, threads, rows, world)[rows[k].threadId] == RowAfter(rows[k], ActionOf(cfg, rows[k], d), d.now)
    decreases |rows|
  {
    var n := |rows| - 1;
    if k < n {
      assert rows[..n][k] == rows[k];
      CycleApplied(cfg, threads, rows[..n], world, k);
    }
  }

  /** A thread listed once is still as listed when the cycle reaches it. */
  lemma CycleUntouched(cfg: Config, threads: map<int, ThreadRow>, rows: seq<ThreadRow>, i: nat, world: int -> Dispatch)
    requires ValidConfig(cfg) && i < |rows|
    requires forall k :: 0 <= k < |rows| ==> rows[k].threadId in threads && threads[rows[k].threadId] == rows[k]
    requires forall j, k :: 0 <= j < k < |rows| ==> rows[j].threadId != rows[k].threadId
    ensures rows[i].threadId in CycleThreads(cfg, threads, rows[..i], world)
    ensures CycleThreads(cfg, threads, rows[..i], world)[rows[i].threadId] == rows[i]
  {
    var done := rows[..i];
    assert forall k :: 0 <= k < |done| ==> done[k] == rows[k];
    CycleFrame(cfg, threads, done, world);
    assert rows[i].threadId !in IdsOf(done);
  }

  /** One more processed row extends the table and the log by that row's effect. */
  lemma CycleStep(cfg: Config, threads: map<int, ThreadRow>, log: seq<HistoryRecord>, rows: seq<ThreadRow>, i: nat, world: int -> Dispatch)
    requires ValidConfig(cfg) && i < |rows|
    ensures var d := world(rows[i].threadId);
      && CycleThreads(cfg, threads, rows[..i + 1], world)
         == CycleThreads(cfg, threads, rows[..i], world)[rows[i].threadId := RowAfter(rows[i], ActionOf(cfg, rows[i], d), d.now)]
      && CycleLog(cfg, log, rows[..i + 1], world)
         == CycleLog(cfg, log, rows[..i], world) + LogAfter(rows[i].threadId, ActionOf(cfg, rows[i], d), d.now)
  {
    assert rows[..i + 1][..i] == rows[..i];
    assert rows[..i + 1][i] == rows[i];
  }

  /** No thread among the first `n` of `rows` got a 401. */
  ghost predicate NoneFatal(rows: seq<ThreadRow>, n: nat, world: int -> Dispatch)
    requires n <= |rows|
  {
    forall i :: 0 <= i < n ==> !IsFatal(world(rows[i].threadId).reply)
  }

  /** `thread.thread_title` from the lookup, or "Unknown". */
  function SeedTitle(info: Option<ThreadInfo>): string {
    if info.Some? then info.value.title.GetOr("Unknown") else "Unknown"
  }

  /** The title and next time `initialize_threads` gives a thread it has not stored yet. */
  function SeedAssignments(info: Option<ThreadInfo>, now: int): (a: seq<Assignment>)
    ensures DistinctColumns(a)
  {
    [SetTitle(Some(SeedTitle(info))), SetNextBumpTime(RemoteNextTime(info).GetOr(now))]
  }

  /** A configured id after reconciliation: added, reactivated, or left as it was. */
  function ConfiguredRow(threads: map<int, ThreadRow>, id: int, info: Option<ThreadInfo>, now: int): ThreadRow {
    if id !in threads then Upserted(threads, id, SeedAssignments(info, now), now)
    else if threads[id].isActive then threads[id]
    else ActivatedRow(threads[id], now)
  }

  /** A stored row whose id is no longer configured, after reconciliation. */
  function UnconfiguredRow(row: ThreadRow, now: int): ThreadRow {
    if row.isActive then DeactivatedRow(row, now) else row
  }

  /** The thread table after `initialize_threads` with the configured ids `config`. */
  function Reconciled(threads: map<int, ThreadRow>, config: set<int>, infoOf: int -> Option<ThreadInfo>, now: int): map<int, ThreadRow> {
    map id | id in threads.Keys + config ::
      if id in config then ConfiguredRow(threads, id, infoOf(id), now) else UnconfiguredRow(threads[id], now)
  }

  /** A thread seen for the first time starts from the defaults with its title and seed time. */
  lemma SeededRow(threads: map<int, ThreadRow>, id: int, info: Option<ThreadInfo>, now: int)
    requires id !in threads
    ensures ConfiguredRow(threads, id, info, now)
         == DefaultRow(id, now).(title := Some(SeedTitle(info)),
                                 nextBumpTime := RemoteNextTime(info).GetOr(now))
  {
    var a := SeedAssignments(info, now);
    var row := DefaultRow(id, now);
    assert [a[0]][..0] == [];
    assert ApplyAll(row, [a[0]]) == Assign(row, a[0]);
    assert a[..1] == [a[0]];
    assert ApplyAll(row, a) == Assign(Assign(row, a[0]), a[1]);
  }

  /**
   * After reconciliation every configured id has an active row, every other row is
   * inactive, no row is lost, a new row is seeded from the remote time (or `now`), and a
   * row that was already there keeps its schedule, its counts and its error.
   */
  lemma ReconcileOutcome(threads: map<int, ThreadRow>, config: set<int>, infoOf: int -> Option<ThreadInfo>, now: int)
    ensures var r := Reconciled(threads, config, infoOf, now);
      && r.Keys == threads.Keys + config
      && (forall id :: id in config ==> r[id].isActive)
      && (forall id :: id in r && id !in config ==> !r[id].isActive)
      && (forall id :: id in config && id !in threads ==>
            r[id].nextBumpTime == RemoteNextTime(infoOf(id)).GetOr(now) && r[id].bumpCount == 0
            && r[id].consecutiveFailures == 0 && r[id].createdAt == now)
      && (forall id :: id in threads ==>
            r[id].threadId == threads[id].threadId && r[id].nextBumpTime == threads[id].nextBumpTime
            && r[id].bumpCount == threads[id].bumpCount && r[id].lastError == threads[id].lastError
            && r[id].createdAt == threads[id].createdAt)
      && (forall id :: id in config && id in threads && threads[id].isActive ==> r[id] == threads[id])
      && (forall id :: id in config && id in threads && !threads[id].isActive ==> r[id].consecutiveFailures == 0)
      && (forall id :: id in threads && id !in config ==> r[id].consecutiveFailures == threads[id].consecutiveFailures)
  {
    var r := Reconciled(threads, config, infoOf, now);
    forall id | id in config && id !in threads
      ensures r[id].isActive && r[id].nextBumpTime == RemoteNextTime(infoOf(id)).GetOr(now)
      ensures r[id].bumpCount == 0 && r[id].consecutiveFailures == 0 && r[id].createdAt == now
    {
      SeededRow(threads, id, infoOf(id), now);
    }
  }

  /** Reconciling again with the same configuration, at any later time, changes nothing. */
  lemma ReconcileIdempotent(threads: map<int, ThreadRow>, config: set<int>, infoOf: int -> Option<ThreadInfo>, now: int, later: int)
    ensures var once := Reconciled(threads, config, infoOf, now);
      Reconciled(once, config, infoOf, later) == once
  {
    var once := Reconciled(threads, config, infoOf, now);
    ReconcileOutcome(threads, config, infoOf, now);
    var twice := Reconciled(once, config, infoOf, later);
    assert twice.Keys == once.Keys;
    forall id | id in once ensures twice[id] == once[id] {
    }
  }

  /** The table part-way through the loop over the configured ids. */
  function FirstPass(threads: map<int, ThreadRow>, done: set<int>, infoOf: int -> Option<ThreadInfo>, now: int): map<int, ThreadRow> {
    map id | id in threads.Keys + done :: if id in done then ConfiguredRow(threads, id, infoOf(id), now) else threads[id]
  }

  /** The table part-way through the loop over the stored rows. */
  function SecondPass(threads: map<int, ThreadRow>, config: set<int>, seen: set<int>, infoOf: int -> Option<ThreadInfo>, now: int): map<int, ThreadRow> {
    map id | id in threads.Keys + config ::
      if id in config then ConfiguredRow(threads, id, infoOf(id), now)
      else if id in seen then UnconfiguredRow(threads[id], now)
      else threads[id]
  }

  /** Handling one more configured id in the first loop. */
  lemma FirstPassStep(threads: map<int, ThreadRow>, done: set<int>, id: int, infoOf: int -> Option<ThreadInfo>, now: int)
    requires id !in done
    ensures var before := FirstPass(threads, done, infoOf, now);
      && (id in before <==> id in threads)
      && (id in threads ==> before[id] == threads[id])
      && FirstPass(threads, done + {id}, infoOf, now) == before[id := ConfiguredRow(threads, id, infoOf(id), now)]
  {
    var before := FirstPass(threads, done, infoOf, now);
    var after := FirstPass(threads, done + {id}, infoOf, now);
    var expected := before[id := ConfiguredRow(threads, id, infoOf(id), now)];
    assert after.Keys == expected.Keys;
    forall x | x in after ensures after[x] == expected[x] {
    }
  }

  /** Handling one more stored row in the second loop. */
  lemma SecondPassStep(threads: map<int, ThreadRow>, config: set<int>, seen: set<int>, id: int, infoOf: int -> Option<ThreadInfo>, now: int)
    requires id in threads && id !in seen && id !in config
    ensures var before := SecondPass(threads, config, seen, infoOf, now);
      && id in before && before[id] == threads[id]
      && SecondPass(threads, config, seen + {id}, infoOf, now)
         == if threads[id].isActive then before[id := DeactivatedRow(threads[id], now)] else before
  {
    var before := SecondPass(threads, config, seen, infoOf, now);
    var after := SecondPass(threads, config, seen + {id}, infoOf, now);
    var expected := before[id := UnconfiguredRow(threads[id], now)];
    assert after.Keys == expected.Keys;
    forall x | x in after ensures after[x] == expected[x] {
    }
  }

  /** A configured id met in the second loop changes nothing. */
  lemma SecondPassSkips(threads: map<int, ThreadRow>, config: set<int>, seen: set<int>, id: int, infoOf: int -> Option<ThreadInfo>, now: int)
    requires id in config
    ensures SecondPass(threads, config, seen + {id}, infoOf, now) == SecondPass(threads, config, seen, infoOf, now)
  {
    var before := SecondPass(threads, config, seen, infoOf, now);
    var after := SecondPass(threads, config, seen + {id}, infoOf, now);
    assert after.Keys == before.Keys;
    forall x | x in after ensures after[x] == before[x] {
    }
  }

  /** The first loop ends where the second starts, and the second ends at the reconciled table. */
  lemma PassesCompose(threads: map<int, ThreadRow>, config: set<int>, infoOf: int -> Option<ThreadInfo>, now: int)
    ensures FirstPass(threads, config, infoOf, now) == SecondPass(threads, config, {}, infoOf, now)
    ensures SecondPass(threads, config, threads.Keys, infoOf, now) == Reconciled(threads, config, infoOf, now)
  {
  }

  class BumpService {
    const cfg: Config
    const db: Database
    /** Cleared by a 401 or a shutdown request; the cycle dispatches nothing once it is false. */
    var running: bool

    ghost predicate Valid()
      reads this, db
    {
      ValidConfig(cfg) && db.Valid()
    }

    /** Starts running over the store file, whose tables hold `threads0` and `history0`. */
    constructor (cfg: Config, threads0: map<int, ThreadRow>, history0: seq<HistoryRecord>)
      requires ValidConfig(cfg)
      requires forall id :: id in threads0 ==> threads0[id].threadId == id
      ensures Valid() && running && this.cfg == cfg
      ensures fresh(db) && db.threads == threads0 && db.history == history0
    {
      this.cfg := cfg;
      db := new Database(threads0, history0);
      running := true;
    }

    /** The shutdown request of the signal handler and of `close`. */
    method Stop()
      modifies this`running
      ensures !running
    {
      running := false;
    }

    /** `_bump_thread`: classifies the answer and clears `running` on a 401. */
    method BumpThread(d: Dispatch) returns (o: Outcome)
      modifies this`running
      ensures o == Classify(cfg, d.reply, d.now, d.jitter, d.info)
      ensures running == (old(running) && !IsFatal(d.reply))
    {
      o := Classify(cfg, d.reply, d.now, d.jitter, d.info);
      if IsFatal(d.reply) {
        running := false;
      }
    }

    /** `process_thread`: bumps one listed thread and applies the decided write to the store. */
    method ProcessThread(row: ThreadRow, d: Dispatch) returns (res: Processed)
      requires Valid() && row.threadId in db.threads && db.threads[row.threadId] == row
      modifies db, this`running
      ensures Valid()
      ensures res == Processed(row.threadId, row.title, OutcomeOf(cfg, d))
      ensures running == (old(running) && !IsFatal(d.reply))
      ensures db.threads == old(db.threads)[row.threadId := RowAfter(row, ActionOf(cfg, row, d), d.now)]
      ensures db.history == old(db.history) + LogAfter(row.threadId, ActionOf(cfg, row, d), d.now)
    {
      var id := row.threadId;
      var outcome := BumpThread(d);
      var action := Plan(cfg, outcome, row.consecutiveFailures, d.now);
      var committed: bool;
      match action {
        case RecordSuccess(m, t) =>
          committed := db.RecordBumpSuccess(id, m, t, d.now, false);
        case RecordFailure(e, t) =>
          committed := db.RecordBumpFailure(id, e, t, d.now, false);
        case Reschedule(t, e) =>
          committed := db.UpsertThread(id, RescheduleAssignments(t, e), d.now, false);
      }
      res := Processed(id, row.title, outcome);
    }

    /**
     * `run_cycle`: lists the due threads and processes them in that order, each once,
     * until the list ends or `running` is found false before a dispatch.
     */
    method RunCycle(now: int, world: int -> Dispatch) returns (ghost ready: seq<ThreadRow>, results: seq<Processed>)
      requires Valid()
      modifies db, this`running
      ensures Valid()
      ensures Listing(old(db.threads), DueIds(old(db.threads), now), ByNextBumpTime, ready)
      ensures |results| <= |ready|
      ensures forall i :: 0 <= i < |results| ==>
        results[i] == Processed(ready[i].threadId, ready[i].title, OutcomeOf(cfg, world(ready[i].threadId)))
      ensures db.threads == CycleThreads(cfg, old(db.threads), ready[..|results|], world)
      ensures db.history == CycleLog(cfg, old(db.history), ready[..|results|], world)
      ensures running == (old(running) && NoneFatal(ready, |results|, world))
      ensures |results| < |ready| ==> !running
      ensures |results| > 0 ==> old(running)
      ensures forall i :: 0 <= i < |results| - 1 ==> !IsFatal(world(ready[i].threadId).reply)
    {
      var due := db.GetThreadsReadyForBump(now);
      ready := due;
      results := [];
      if |due| == 0 {
        return;
      }
      results := ProcessReady(due, world);
    }

    /** The loop of `run_cycle`: dispatches the listed threads in order while `running` holds. */
    method ProcessReady(due: seq<ThreadRow>, world: int -> Dispatch) returns (results: seq<Processed>)
      requires Valid()
      requires forall i, j :: 0 <= i < j < |due| ==> due[i].threadId != due[j].threadId
      requires forall k :: 0 <= k < |due| ==> due[k].threadId in db.threads && db.threads[due[k].threadId] == due[k]
      modifies db, this`running
      ensures Valid()
      ensures |results| <= |due|
      ensures forall i :: 0 <= i < |results| ==>
        results[i] == Processed(due[i].threadId, due[i].title, OutcomeOf(cfg, world(due[i].threadId)))
      ensures db.threads == CycleThreads(cfg, old(db.threads), due[..|results|], world)
      ensures db.history == CycleLog(cfg, old(db.history), due[..|results|], world)
      ensures running == (old(running) && NoneFatal(due, |results|, world))
      ensures |results| < |due| ==> !running
      ensures |results| > 0 ==> old(running) && NoneFatal(due, |results| - 1, world)
    {
      results := [];
      var i := 0;
      while i < |due|
        invariant 0 <= i <= |due| && |results| == i
        invariant Valid()
        invariant forall k :: 0 <= k < i ==>
          results[k] == Processed(due[k].threadId, due[k].title, OutcomeOf(cfg, world(due[k].threadId)))
        invariant db.threads == CycleThreads(cfg, old(db.threads), due[..i], world)
        invariant db.history == CycleLog(cfg, old(db.history), due[..i], world)
        invariant running == (old(running) && NoneFatal(due, i, world))
        invariant i > 0 ==> old(running) && NoneFatal(due, i - 1, world)
      {
        if !running {
          break;
        }
        var row := due[i];
        CycleUntouched(cfg, old(db.threads), due, i, world);
        CycleStep(cfg, old(db.threads), old(db.history), due, i, world);
        var res := ProcessThread(row, world(row.threadId));
        results := results + [res];
        i := i + 1;
      }
    }

    /**
     * `initialize_threads`: adds every configured id the store lacks, reactivates every
     * configured id it holds inactive, and deactivates every active stored id that is no
     * longer configured.
     */
    method InitializeThreads(now: int, config: set<int>, infoOf: int -> Option<ThreadInfo>)
      requires Valid()
      modifies db
      ensures Valid()
      ensures db.threads == Reconciled(old(db.threads), config, infoOf, now)
      ensures db.history == old(db.history)
    {
      var stored := db.GetAllThreads();
      ghost var threads0 := db.threads;
      AddConfigured(now, config, infoOf, stored);
      PassesCompose(threads0, config, infoOf, now);
      DeactivateUnconfigured(now, config, infoOf, stored, threads0);
    }

    /** The loop of `initialize_threads` over the configured ids. */
    method AddConfigured(now: int, config: set<int>, infoOf: int -> Option<ThreadInfo>, stored: seq<ThreadRow>)
      requires Valid() && Listing(db.threads, db.threads.Keys, ByThreadId, stored)
      modifies db
      ensures Valid()
      ensures db.threads == FirstPass(old(db.threads), config, infoOf, now)
      ensures db.history == old(db.history)
    {
      var storedIds := set t | t in stored :: t.threadId;
      ghost var threads0 := db.threads;
      assert storedIds == threads0.Keys;
      var todo := config;
      while todo != {}
        invariant todo <= config
        invariant Valid()
        invariant db.history == old(db.history)
        invariant db.threads == FirstPass(threads0, config - todo, infoOf, now)
        decreases todo
      {
        assert exists x :: x in todo by {
          if forall x :: x !in todo {
            assert false;
          }
        }
        var id :| id in todo;
        FirstPassStep(threads0, config - todo, id, infoOf, now);
        if id !in storedIds {
          var committed := db.UpsertThread(id, SeedAssignments(infoOf(id), now), now, false);
        } else {
          var thread :| thread in stored && thread.threadId == id;
          ListedRow(threads0, threads0.Keys, ByThreadId, stored, thread);
          if !thread.isActive {
            db.ActivateThread(id, now);
          }
        }
        assert config - (todo - {id}) == (config - todo) + {id};
        todo := todo - {id};
      }
      assert config - todo == config;
    }

    /** The loop of `initialize_threads` over the rows listed before it started. */
    method DeactivateUnconfigured(now: int, config: set<int>, infoOf: int -> Option<ThreadInfo>, stored: seq<ThreadRow>, ghost threads0: map<int, ThreadRow>)
      requires Valid() && Listing(threads0, threads0.Keys, ByThreadId, stored)
      requires db.threads == SecondPass(threads0, config, {}, infoOf, now)
      modifies db
      ensures Valid()
      ensures db.threads == SecondPass(threads0, config, threads0.Keys, infoOf, now)
      ensures db.history == old(db.history)
    {
      var i := 0;
      ghost var seen: set<int> := {};
      while i < |stored|
        invariant 0 <= i <= |stored|
        invariant Valid()
        invariant db.history == old(db.history)
        invariant seen == IdsOf(stored[..i])
        invariant db.threads == SecondPass(threads0, config, seen, infoOf, now)
      {
        var thread := stored[i];
        ghost var id := thread.threadId;
        assert thread in stored;
        ListedRow(threads0, threads0.Keys, ByThreadId, stored, thread);
        IdsOfSnoc(stored[..i], thread);
        assert stored[..i + 1] == stored[..i] + [thread];
        if thread.threadId !in config {
          ListedOnce(threads0, threads0.Keys, ByThreadId, stored, i);
          SecondPassStep(threads0, config, seen, id, infoOf, now);
          if thread.isActive {
            db.DeactivateThread(thread.threadId, now);
          }
        } else {
          SecondPassSkips(threads0, config, seen, id, infoOf, now);
        }
        seen := seen + {id};
        i := i + 1;
      }
      assert stored[..i] == stored;
    }
  }
}
