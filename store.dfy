/**
 * The persistent store of database.py: the `threads` table, one row per thread id, and the
 * append-only `bump_history` table. Each method is one transaction of the original: it
 * either applies every one of its writes or, when the storage engine reports an error
 * (`fault`), none of them. Clock readings (`int(time.time())`) are the parameter `now`.
 */
module Store {
  import opened Wrappers

  const SecondsPerDay := 86400

  /** A row of `threads`; the defaults of the schema are those of `DefaultRow`. */
  datatype ThreadRow = ThreadRow(
    threadId: int,
    title: Option<string>,
    lastBumpTime: int,
    nextBumpTime: int,
    bumpCount: nat,
    lastError: Option<string>,
    consecutiveFailures: nat,
    isActive: bool,
    createdAt: int,
    updatedAt: int)

  /** A row of `bump_history`; the auto-increment id is the record's position in the log. */
  datatype HistoryRecord = HistoryRecord(threadId: int, bumpTime: int, success: bool, message: string)

  /** The columns a caller of `upsert_thread` may name as keyword arguments. */
  datatype Column = Title | LastBumpTime | NextBumpTime | BumpCount | LastError | ConsecutiveFailures | IsActive

  /** One keyword argument `column=value` of `upsert_thread`. */
  datatype Assignment =
    | SetTitle(title: Option<string>)
    | SetLastBumpTime(lastBumpTime: int)
    | SetNextBumpTime(nextBumpTime: int)
    | SetBumpCount(bumpCount: nat)
    | SetLastError(lastError: Option<string>)
    | SetConsecutiveFailures(consecutiveFailures: nat)
    | SetIsActive(isActive: bool)

  function ColumnOf(a: Assignment): Column {
    match a
    case SetTitle(_) => Title
    case SetLastBumpTime(_) => LastBumpTime
    case SetNextBumpTime(_) => NextBumpTime
    case SetBumpCount(_) => BumpCount
    case SetLastError(_) => LastError
    case SetConsecutiveFailures(_) => ConsecutiveFailures
    case SetIsActive(_) => IsActive
  }

  /** The row with the one column that `a` names set to `a`'s value. */
  function Assign(row: ThreadRow, a: Assignment): ThreadRow {
    match a
    case SetTitle(v) => row.(title := v)
    case SetLastBumpTime(v) => row.(lastBumpTime := v)
    case SetNextBumpTime(v) => row.(nextBumpTime := v)
    case SetBumpCount(v) => row.(bumpCount := v)
    case SetLastError(v) => row.(lastError := v)
    case SetConsecutiveFailures(v) => row.(consecutiveFailures := v)
    case SetIsActive(v) => row.(isActive := v)
  }

  /** Rows `r` and `s` hold the same value in column `c`. */
  predicate Agree(r: ThreadRow, s: ThreadRow, c: Column) {
    match c
    case Title => r.title == s.title
    case LastBumpTime => r.lastBumpTime == s.lastBumpTime
    case NextBumpTime => r.nextBumpTime == s.nextBumpTime
    case BumpCount => r.bumpCount == s.bumpCount
    case LastError => r.lastError == s.lastError
    case ConsecutiveFailures => r.consecutiveFailures == s.consecutiveFailures
    case IsActive => r.isActive == s.isActive
  }

  /** Some keyword argument in `assigns` names column `c`. */
  ghost predicate Names(assigns: seq<Assignment>, c: Column) {
    exists k :: 0 <= k < |assigns| && ColumnOf(assigns[k]) == c
  }

  /** No column is named twice, as with Python keyword arguments. */
  predicate DistinctColumns(assigns: seq<Assignment>) {
    forall i, j :: 0 <= i < j < |assigns| ==> ColumnOf(assigns[i]) != ColumnOf(assigns[j])
  }

  /** The row after the `SET` list built from `assigns`, in argument order. */
  function ApplyAll(row: ThreadRow, assigns: seq<Assignment>): ThreadRow
    decreases |assigns|
  {
    if assigns == [] then row
    else Assign(ApplyAll(row, assigns[..|assigns| - 1]), assigns[|assigns| - 1])
  }

  lemma AssignKeepsOthers(row: ThreadRow, a: Assignment, c: Column)
    requires ColumnOf(a) != c
    ensures Agree(Assign(row, a), row, c)
    ensures Assign(row, a).threadId == row.threadId
    ensures Assign(row, a).createdAt == row.createdAt && Assign(row, a).updatedAt == row.updatedAt
  {
  }

  lemma AssignSets(x: ThreadRow, y: ThreadRow, a: Assignment)
    ensures Agree(Assign(x, a), Assign(y, a), ColumnOf(a))
  {
  }

  /** The key and bookkeeping columns are never among the assignments. */
  lemma {:induction false} ApplyAllKeepsKey(row: ThreadRow, assigns: seq<Assignment>)
    ensures ApplyAll(row, assigns).threadId == row.threadId
    ensures ApplyAll(row, assigns).createdAt == row.createdAt
    ensures ApplyAll(row, assigns).updatedAt == row.updatedAt
    decreases |assigns|
  {
    if assigns != [] {
      ApplyAllKeepsKey(row, assigns[..|assigns| - 1]);
    }
  }

  /** A column that no assignment names keeps its value. */
  lemma {:induction false} ApplyAllKeepsOthers(row: ThreadRow, assigns: seq<Assignment>, c: Column)
    requires !Names(assigns, c)
    ensures Agree(ApplyAll(row, assigns), row, c)
    decreases |assigns|
  {
    if assigns != [] {
      var n := |assigns| - 1;
      var init := assigns[..n];
      assert !Names(init, c) by {
        forall k | 0 <= k < |init| ensures ColumnOf(init[k]) != c {
          assert init[k] == assigns[k];
        }
      }
      ApplyAllKeepsOthers(row, init, c);
      assert ColumnOf(assigns[n]) != c;
      AssignKeepsOthers(ApplyAll(row, init), assigns[n], c);
    }
  }

  /** A column that an assignment names ends up with that assignment's value. */
  lemma {:induction false} ApplyAllSetsNamed(row: ThreadRow, assigns: seq<Assignment>, k: nat)
    requires DistinctColumns(assigns) && k < |assigns|
    ensures Agree(ApplyAll(row, assigns), Assign(row, assigns[k]), ColumnOf(assigns[k]))
    decreases |assigns|
  {
    var n := |assigns| - 1;
    var init := assigns[..n];
    if k == n {
      AssignSets(ApplyAll(row, init), row, assigns[n]);
    } else {
      assert init[k] == assigns[k];
      ApplyAllSetsNamed(row, init, k);
      AssignKeepsOthers(ApplyAll(row, init), assigns[n], ColumnOf(assigns[k]));
    }
  }

  /** A fresh row: every column the INSERT does not name takes its schema default. */
  function DefaultRow(id: int, now: int): ThreadRow {
    ThreadRow(id, None, 0, 0, 0, None, 0, true, now, now)
  }

  /** The row `upsert_thread(id, **assigns)` leaves behind. */
  function Upserted(threads: map<int, ThreadRow>, id: int, assigns: seq<Assignment>, now: int): ThreadRow {
    if id in threads then ApplyAll(threads[id], assigns).(updatedAt := now)
    else ApplyAll(DefaultRow(id, now), assigns)
  }

  /** On an existing row, exactly the named columns and `updated_at` change. */
  lemma UpsertExisting(threads: map<int, ThreadRow>, id: int, assigns: seq<Assignment>, now: int)
    requires id in threads && DistinctColumns(assigns)
    ensures var r := Upserted(threads, id, assigns, now);
      && r.threadId == threads[id].threadId
      && r.createdAt == threads[id].createdAt
      && r.updatedAt == now
      && (forall c :: !Names(assigns, c) ==> Agree(r, threads[id], c))
      && (forall k :: 0 <= k < |assigns| ==> Agree(r, Assign(threads[id], assigns[k]), ColumnOf(assigns[k])))
  {
    var row := threads[id];
    ApplyAllKeepsKey(row, assigns);
    forall c | !Names(assigns, c) ensures Agree(Upserted(threads, id, assigns, now), row, c) {
      ApplyAllKeepsOthers(row, assigns, c);
    }
    forall k | 0 <= k < |assigns|
      ensures Agree(Upserted(threads, id, assigns, now), Assign(row, assigns[k]), ColumnOf(assigns[k]))
    {
      ApplyAllSetsNamed(row, assigns, k);
    }
  }

  /** On an absent id, the inserted row holds the named values and the defaults elsewhere. */
  lemma UpsertAbsent(threads: map<int, ThreadRow>, id: int, assigns: seq<Assignment>, now: int)
    requires id !in threads && DistinctColumns(assigns)
    ensures var r := Upserted(threads, id, assigns, now);
      && r.threadId == id
      && r.createdAt == now && r.updatedAt == now
      && (forall c :: !Names(assigns, c) ==> Agree(r, DefaultRow(id, now), c))
      && (forall k :: 0 <= k < |assigns| ==> Agree(r, Assign(DefaultRow(id, now), assigns[k]), ColumnOf(assigns[k])))
  {
    var row := DefaultRow(id, now);
    ApplyAllKeepsKey(row, assigns);
    forall c | !Names(assigns, c) ensures Agree(Upserted(threads, id, assigns, now), row, c) {
      ApplyAllKeepsOthers(row, assigns, c);
    }
    forall k | 0 <= k < |assigns|
      ensures Agree(Upserted(threads, id, assigns, now), Assign(row, assigns[k]), ColumnOf(assigns[k]))
    {
      ApplyAllSetsNamed(row, assigns, k);
    }
  }

  /** The row after `record_bump_success`. */
  function BumpedRow(row: ThreadRow, nextBumpTime: int, now: int): ThreadRow {
    row.(lastBumpTime := now, nextBumpTime := nextBumpTime, bumpCount := row.bumpCount + 1,
         lastError := None, consecutiveFailures := 0, updatedAt := now)
  }

  /** The row after `record_bump_failure`. */
  function FailedRow(row: ThreadRow, error: string, nextRetryTime: int, now: int): ThreadRow {
    row.(nextBumpTime := nextRetryTime, lastError := Some(error),
         consecutiveFailures := row.consecutiveFailures + 1, updatedAt := now)
  }

  /** The row after `reset_consecutive_failures`. */
  function ClearedRow(row: ThreadRow, now: int): ThreadRow {
    row.(consecutiveFailures := 0, updatedAt := now)
  }

  /** The row after `activate_thread`. */
  function ActivatedRow(row: ThreadRow, now: int): ThreadRow {
    row.(isActive := true, consecutiveFailures := 0, updatedAt := now)
  }

  /** The row after `deactivate_thread`. */
  function DeactivatedRow(row: ThreadRow, now: int): ThreadRow {
    row.(isActive := false, updatedAt := now)
  }

  /** `UPDATE threads SET … WHERE thread_id = id`: no row changes when the id is absent. */
  function UpdateWhere(threads: map<int, ThreadRow>, id: int, f: ThreadRow -> ThreadRow): map<int, ThreadRow> {
    if id in threads then threads[id := f(threads[id])] else threads
  }

  /** Activation and deactivation are idempotent, and neither adds nor removes a row. */
  lemma FlipsIdempotent(threads: map<int, ThreadRow>, id: int, now: int)
    ensures var on := UpdateWhere(threads, id, r => ActivatedRow(r, now));
      UpdateWhere(on, id, r => ActivatedRow(r, now)) == on && on.Keys == threads.Keys
      && (id in threads ==> on[id].isActive && on[id].consecutiveFailures == 0)
    ensures var off := UpdateWhere(threads, id, r => DeactivatedRow(r, now));
      UpdateWhere(off, id, r => DeactivatedRow(r, now)) == off && off.Keys == threads.Keys
      && (id in threads ==> !off[id].isActive && off[id].consecutiveFailures == threads[id].consecutiveFailures)
  {
  }

  /** The order of a listing: `ORDER BY next_bump_time` or `ORDER BY thread_id`. */
  datatype Order = ByNextBumpTime | ByThreadId

  function Key(row: ThreadRow, order: Order): int {
    match order
    case ByNextBumpTime => row.nextBumpTime
    case ByThreadId => row.threadId
  }

  function IdsOf(rows: seq<ThreadRow>): set<int> {
    set r | r in rows :: r.threadId
  }

  lemma IdsOfSnoc(rows: seq<ThreadRow>, r: ThreadRow)
    ensures IdsOf(rows + [r]) == IdsOf(rows) + {r.threadId}
  {
    assert forall x :: x in rows + [r] <==> x in rows || x == r;
  }

  /**
   * `rows` lists the stored rows of exactly the ids in `ids`, each once, in ascending
   * order of the key (ties in any order, as SQL leaves them).
   */
  ghost predicate Listing(threads: map<int, ThreadRow>, ids: set<int>, order: Order, rows: seq<ThreadRow>) {
    && IdsOf(rows) == ids
    && (forall i :: 0 <= i < |rows| ==> rows[i].threadId in threads && threads[rows[i].threadId] == rows[i])
    && (forall i, j :: 0 <= i < j < |rows| ==> rows[i].threadId != rows[j].threadId)
    && (forall i, j :: 0 <= i < j < |rows| ==> Key(rows[i], order) <= Key(rows[j], order))
  }

  lemma ListedRow(threads: map<int, ThreadRow>, ids: set<int>, order: Order, rows: seq<ThreadRow>, r: ThreadRow)
    requires Listing(threads, ids, order, rows) && r in rows
    ensures r.threadId in threads && threads[r.threadId] == r && r.threadId in ids
  {
    var k :| 0 <= k < |rows| && rows[k] == r;
  }

  /** A listed id does not occur earlier in the listing. */
  lemma ListedOnce(threads: map<int, ThreadRow>, ids: set<int>, order: Order, rows: seq<ThreadRow>, i: nat)
    requires Listing(threads, ids, order, rows) && i < |rows|
    ensures rows[i].threadId !in IdsOf(rows[..i])
  {
  }

  /**
   * Part-way through a listing: `rows` lists the ids already taken, in order, and none of
   * the ids still to do sorts before them.
   */
  ghost predicate QueryProgress(threads: map<int, ThreadRow>, ids: set<int>, order: Order, rows: seq<ThreadRow>, todo: set<int>) {
    && todo <= ids <= threads.Keys
    && IdsOf(rows) + todo == ids && IdsOf(rows) !! todo
    && Listing(threads, IdsOf(rows), order, rows)
    && forall i, o :: 0 <= i < |rows| && o in todo ==> Key(rows[i], order) <= Key(threads[o], order)
  }

  /** Taking an id of least key from the ones still to do extends a listing in progress. */
  lemma QueryStep(threads: map<int, ThreadRow>, ids: set<int>, order: Order, rows: seq<ThreadRow>, todo: set<int>, id: int)
    requires QueryProgress(threads, ids, order, rows, todo)
    requires id in todo && threads[id].threadId == id
    requires forall o :: o in todo ==> Key(threads[id], order) <= Key(threads[o], order)
    ensures QueryProgress(threads, ids, order, rows + [threads[id]], todo - {id})
  {
    var next := rows + [threads[id]];
    assert forall i :: 0 <= i < |rows| ==> rows[i] in rows && next[i] == rows[i];
    IdsOfSnoc(rows, threads[id]);
  }

  /** A thread is due: `is_active = 1 AND next_bump_time <= now`. */
  predicate IsDue(row: ThreadRow, now: int) {
    row.isActive && row.nextBumpTime <= now
  }

  function DueIds(threads: map<int, ThreadRow>, now: int): set<int> {
    set id | id in threads.Keys && IsDue(threads[id], now)
  }

  /** Every non-empty set of stored ids has an element of least key. */
  lemma {:induction false} LeastExists(threads: map<int, ThreadRow>, s: set<int>, order: Order)
    requires s != {} && s <= threads.Keys
    ensures exists id :: id in s && forall o :: o in s ==> Key(threads[id], order) <= Key(threads[o], order)
    decreases s
  {
    if forall x :: x !in s {
      assert false;
    }
    var x :| x in s;
    if s != {x} {
      var rest := s - {x};
      LeastExists(threads, rest, order);
      var y :| y in rest && forall o :: o in rest ==> Key(threads[y], order) <= Key(threads[o], order);
      if Key(threads[x], order) <= Key(threads[y], order) {
        assert forall o :: o in s ==> Key(threads[x], order) <= Key(threads[o], order);
      } else {
        assert forall o :: o in s ==> Key(threads[y], order) <= Key(threads[o], order);
      }
    } else {
      assert forall o :: o in s ==> o == x;
    }
  }

  /** Records with `bump_time > since`. */
  function CountSince(h: seq<HistoryRecord>, since: int): nat {
    if h == [] then 0
    else CountSince(h[..|h| - 1], since) + (if h[|h| - 1].bumpTime > since then 1 else 0)
  }

  /** `SUM(success)` over the records with `bump_time > since`. */
  function SuccessesSince(h: seq<HistoryRecord>, since: int): nat {
    if h == [] then 0
    else SuccessesSince(h[..|h| - 1], since) + (if h[|h| - 1].bumpTime > since && h[|h| - 1].success then 1 else 0)
  }

  /** Failed attempts with `bump_time > since`, counted directly. */
  function FailuresSince(h: seq<HistoryRecord>, since: int): nat {
    if h == [] then 0
    else FailuresSince(h[..|h| - 1], since) + (if h[|h| - 1].bumpTime > since && !h[|h| - 1].success then 1 else 0)
  }

  /** Within a window, every attempt is either a success or a failure. */
  lemma {:induction false} WindowSplits(h: seq<HistoryRecord>, since: int)
    ensures SuccessesSince(h, since) + FailuresSince(h, since) == CountSince(h, since)
  {
    if h != [] {
      WindowSplits(h[..|h| - 1], since);
    }
  }

  /** Records with `bump_time < cutoff`: those `cleanup_old_history` deletes. */
  function CountBefore(h: seq<HistoryRecord>, cutoff: int): nat {
    if h == [] then 0
    else CountBefore(h[..|h| - 1], cutoff) + (if h[|h| - 1].bumpTime < cutoff then 1 else 0)
  }

  /** The log after `DELETE FROM bump_history WHERE bump_time < cutoff`. */
  function Kept(h: seq<HistoryRecord>, cutoff: int): (r: seq<HistoryRecord>)
    ensures forall x :: x in r <==> x in h && x.bumpTime >= cutoff
    ensures |r| + CountBefore(h, cutoff) == |h|
  {
    if h == [] then []
    else
      var init := h[..|h| - 1];
      var last := h[|h| - 1];
      assert h == init + [last];
      if last.bumpTime < cutoff then Kept(init, cutoff) else Kept(init, cutoff) + [last]
  }

  /** Deletion works record by record: it commutes with appending to the log. */
  lemma {:induction false} KeptDistributes(a: seq<HistoryRecord>, b: seq<HistoryRecord>, cutoff: int)
    ensures Kept(a + b, cutoff) == Kept(a, cutoff) + Kept(b, cutoff)
    decreases |b|
  {
    if b == [] {
      assert a + b == a;
    } else {
      var init := b[..|b| - 1];
      var last := b[|b| - 1];
      assert (a + b)[..|a + b| - 1] == a + init;
      assert (a + b)[|a + b| - 1] == last;
      KeptDistributes(a, init, cutoff);
    }
  }

  /** The aggregate `get_stats` reports. */
  datatype Stats = Stats(totalThreads: nat, activeThreads: nat, bumps24h: nat, successful24h: nat, failed24h: nat)

  function ActiveIds(threads: map<int, ThreadRow>): set<int> {
    set id | id in threads.Keys && threads[id].isActive
  }

  class Database {
    var threads: map<int, ThreadRow>
    var history: seq<HistoryRecord>

    /** Each row is stored under its own `thread_id` (the primary key). */
    ghost predicate Valid()
      reads this
    {
      forall id :: id in threads ==> threads[id].threadId == id
    }

    /**
     * Opens the store file. The tables are created only if they do not exist yet, so the
     * store holds whatever rows the file already held: `threads0` and `history0` (both empty
     * for a new file).
     */
    constructor (threads0: map<int, ThreadRow>, history0: seq<HistoryRecord>)
      requires forall id :: id in threads0 ==> threads0[id].threadId == id
      ensures Valid() && threads == threads0 && history == history0
    {
      threads := threads0;
      history := history0;
    }

    function GetThread(id: int): (r: Option<ThreadRow>)
      reads this
      requires Valid()
      ensures r.Some? <==> id in threads
      ensures r.Some? ==> r.value.threadId == id && threads[id] == r.value
    {
      if id in threads then Some(threads[id]) else None
    }

    /**
     * `upsert_thread`: updates the named columns of an existing row and stamps `updated_at`,
     * or inserts a row with the named columns, schema defaults elsewhere and both stamps.
     */
    method UpsertThread(id: int, assigns: seq<Assignment>, now: int, fault: bool) returns (committed: bool)
      requires Valid() && DistinctColumns(assigns)
      modifies this
      ensures Valid()
      ensures committed == !fault
      ensures history == old(history)
      ensures threads == if fault then old(threads) else old(threads)[id := Upserted(old(threads), id, assigns, now)]
    {
      var existing := GetThread(id);
      var row := if existing.Some? then existing.value else DefaultRow(id, now);
      ghost var base := row;
      var i := 0;
      while i < |assigns|
        invariant 0 <= i <= |assigns|
        invariant row == ApplyAll(base, assigns[..i])
      {
        assert assigns[..i + 1][..i] == assigns[..i];
        row := Assign(row, assigns[i]);
        i := i + 1;
      }
      assert assigns[..i] == assigns;
      if existing.Some? {
        row := row.(updatedAt := now);
      }
      ApplyAllKeepsKey(base, assigns);
      committed := !fault;
      if committed {
        threads := threads[id := row];
      }
    }

    /** The stored rows of `ids`, listed in ascending order of `order`'s key. */
    method Query(ids: set<int>, order: Order) returns (rows: seq<ThreadRow>)
      requires Valid() && ids <= threads.Keys
      ensures Listing(threads, ids, order, rows)
    {
      rows := [];
      var todo := ids;
      while todo != {}
        invariant QueryProgress(threads, ids, order, rows, todo)
        decreases todo
      {
        LeastExists(threads, todo, order);
        var id :| id in todo && forall o :: o in todo ==> Key(threads[id], order) <= Key(threads[o], order);
        QueryStep(threads, ids, order, rows, todo, id);
        rows := rows + [threads[id]];
        todo := todo - {id};
      }
    }

    /** `get_threads_ready_for_bump`: the due threads, oldest `next_bump_time` first. */
    method GetThreadsReadyForBump(now: int) returns (ready: seq<ThreadRow>)
      requires Valid()
      ensures Listing(threads, DueIds(threads, now), ByNextBumpTime, ready)
      ensures forall i :: 0 <= i < |ready| ==> IsDue(ready[i], now)
    {
      ready := Query(DueIds(threads, now), ByNextBumpTime);
      forall i | 0 <= i < |ready| ensures IsDue(ready[i], now) {
        assert ready[i] in ready;
        assert ready[i].threadId in DueIds(threads, now);
      }
    }

    /** `get_all_threads`: every row, in strictly ascending `thread_id` order. */
    method GetAllThreads() returns (all: seq<ThreadRow>)
      requires Valid()
      ensures Listing(threads, threads.Keys, ByThreadId, all)
      ensures forall i, j :: 0 <= i < j < |all| ==> all[i].threadId < all[j].threadId
    {
      all := Query(threads.Keys, ByThreadId);
    }

    /**
     * `record_bump_success`: stamps the bump, sets the next time, counts the bump, clears
     * the error state and logs a successful attempt, all in one transaction.
     */
    method RecordBumpSuccess(id: int, message: string, nextBumpTime: int, now: int, fault: bool) returns (committed: bool)
      requires Valid()
      modifies this
      ensures Valid()
      ensures committed == !fault
      ensures threads == if fault then old(threads) else UpdateWhere(old(threads), id, r => BumpedRow(r, nextBumpTime, now))
      ensures history == if fault then old(history) else old(history) + [HistoryRecord(id, now, true, message)]
    {
      var updated := UpdateWhere(threads, id, r => BumpedRow(r, nextBumpTime, now));
      var logged := history + [HistoryRecord(id, now, true, message)];
      committed := !fault;
      if committed {
        threads, history := updated, logged;
      }
    }

    /**
     * `record_bump_failure`: sets the retry time and the error, counts the failure and logs
     * a failed attempt, all in one transaction; `bump_count` and `last_bump_time` stay.
     */
    method RecordBumpFailure(id: int, error: string, nextRetryTime: int, now: int, fault: bool) returns (committed: bool)
      requires Valid()
      modifies this
      ensures Valid()
      ensures committed == !fault
      ensures threads == if fault then old(threads) else UpdateWhere(old(threads), id, r => FailedRow(r, error, nextRetryTime, now))
      ensures history == if fault then old(history) else old(history) + [HistoryRecord(id, now, false, error)]
    {
      var updated := UpdateWhere(threads, id, r => FailedRow(r, error, nextRetryTime, now));
      var logged := history + [HistoryRecord(id, now, false, error)];
      committed := !fault;
      if committed {
        threads, history := updated, logged;
      }
    }

    /** `reset_consecutive_failures`. */
    method ResetConsecutiveFailures(id: int, now: int)
      requires Valid()
      modifies this
      ensures Valid()
      ensures threads == UpdateWhere(old(threads), id, r => ClearedRow(r, now)) && history == old(history)
    {
      threads := UpdateWhere(threads, id, r => ClearedRow(r, now));
    }

    /** `deactivate_thread`: the row stays, only `is_active` and `updated_at` change. */
    method DeactivateThread(id: int, now: int)
      requires Valid()
      modifies this
      ensures Valid()
      ensures threads == UpdateWhere(old(threads), id, r => DeactivatedRow(r, now)) && history == old(history)
    {
      threads := UpdateWhere(threads, id, r => DeactivatedRow(r, now));
    }

    /** `activate_thread`: also restarts the failure count. */
    method ActivateThread(id: int, now: int)
      requires Valid()
      modifies this
      ensures Valid()
      ensures threads == UpdateWhere(old(threads), id, r => ActivatedRow(r, now)) && history == old(history)
    {
      threads := UpdateWhere(threads, id, r => ActivatedRow(r, now));
    }

    /**
     * `get_stats`: thread counts and the attempts of the last 24 hours; `failed_24h` is
     * computed as `COUNT(*) - SUM(success)` and is exactly the number of failed attempts.
     */
    function GetStats(now: int): (s: Stats)
      reads this
      ensures s.totalThreads == |threads| && s.activeThreads == |ActiveIds(threads)|
      ensures s.bumps24h == CountSince(history, now - SecondsPerDay)
      ensures s.successful24h + s.failed24h == s.bumps24h
      ensures s.failed24h == FailuresSince(history, now - SecondsPerDay)
    {
      var dayAgo := now - SecondsPerDay;
      WindowSplits(history, dayAgo);
      var total := CountSince(history, dayAgo);
      var successful := SuccessesSince(history, dayAgo);
      Stats(|threads|, |ActiveIds(threads)|, total, successful, total - successful)
    }

    /** `cleanup_old_history`: drops the records older than `days` days; rows stay. */
    method CleanupOldHistory(days: int, now: int) returns (deleted: nat)
      modifies this
      ensures threads == old(threads)
      ensures history == Kept(old(history), now - days * SecondsPerDay)
      ensures deleted == CountBefore(old(history), now - days * SecondsPerDay)
    {
      var cutoff := now - days * SecondsPerDay;
      var survivors := Kept(history, cutoff);
      deleted := |history| - |survivors|;
      history := survivors;
    }
  }
}
