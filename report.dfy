/**
 * The figures bump_service.py shows to people: the summary after a cycle
 * (`_notify_summary`) and the `/status` answer (`status_handler`). Only what is computed
 * is modelled, not the HTML text it is pasted into.
 */
module Report {
  import opened Store
  import opened Service

  const SecondsPerHour := 3600
  const SecondsPerMinute := 60

  /** `max(0, next_bump_time - now)`. */
  function WaitSeconds(nextBumpTime: int, now: int): (w: nat)
    ensures w == 0 <==> nextBumpTime <= now
    ensures w >= nextBumpTime - now
    ensures w > 0 ==> w == nextBumpTime - now
  {
    if nextBumpTime > now then nextBumpTime - now else 0
  }

  /** `h, m = wait // 3600, (wait % 3600) // 60`: whole hours, then the whole minutes left over. */
  function Clock(w: nat): (hm: (nat, nat))
    ensures hm.1 < 60
    ensures SecondsPerHour * hm.0 + SecondsPerMinute * hm.1 <= w < SecondsPerHour * hm.0 + SecondsPerMinute * hm.1 + SecondsPerMinute
  {
    var h := w / SecondsPerHour;
    var rest := w % SecondsPerHour;
    var m := rest / SecondsPerMinute;
    assert w == SecondsPerHour * h + rest;
    assert rest == SecondsPerMinute * m + rest % SecondsPerMinute;
    (h, m)
  }

  /** Hours and minutes are the only split of `w` with fewer than 60 minutes and under a minute left over. */
  lemma ClockUnique(w: nat, h: nat, m: nat)
    requires m < 60
    requires SecondsPerHour * h + SecondsPerMinute * m <= w < SecondsPerHour * h + SecondsPerMinute * m + SecondsPerMinute
    ensures Clock(w) == (h, m)
  {
  }

  /** A `/status` line: READY, or the time left as hours and minutes. */
  datatype StatusMark = Ready | Waiting(hours: nat, minutes: nat)

  function StatusOf(row: ThreadRow, now: int): (s: StatusMark)
    ensures s.Ready? <==> row.nextBumpTime <= now
    ensures s.Waiting? ==> s.minutes < 60 && (s.hours, s.minutes) == Clock(row.nextBumpTime - now)
  {
    var wait := WaitSeconds(row.nextBumpTime, now);
    if wait == 0 then Ready else Waiting(Clock(wait).0, Clock(wait).1)
  }

  /** The rows of `rows` that `keep` accepts, in their order. */
  function Filter(rows: seq<ThreadRow>, keep: ThreadRow -> bool): (r: seq<ThreadRow>)
    ensures forall x :: x in r <==> x in rows && keep(x)
    ensures |r| <= |rows|
  {
    if rows == [] then []
    else
      var init := rows[..|rows| - 1];
      var last := rows[|rows| - 1];
      assert rows == init + [last];
      Filter(init, keep) + (if keep(last) then [last] else [])
  }

  predicate IsActive(row: ThreadRow) {
    row.isActive
  }

  /** Filtering works row by row: filtering a concatenation filters both parts, in order. */
  lemma {:induction false} FilterAppend(a: seq<ThreadRow>, b: seq<ThreadRow>, keep: ThreadRow -> bool)
    ensures Filter(a + b, keep) == Filter(a, keep) + Filter(b, keep)
    decreases |b|
  {
    if b == [] {
      assert a + b == a;
    } else {
      var init := b[..|b| - 1];
      var last := b[|b| - 1];
      assert (a + b)[..|a + b| - 1] == a + init;
      assert (a + b)[|a + b| - 1] == last;
      FilterAppend(a, init, keep);
    }
  }

  /** A single row is kept exactly when `keep` accepts it. */
  lemma FilterOne(x: ThreadRow, keep: ThreadRow -> bool)
    ensures Filter([x], keep) == if keep(x) then [x] else []
  {
    assert [x][..0] == [];
  }

  /** The `/status` answer: one line per active row, in listing order. */
  function StatusLines(rows: seq<ThreadRow>, now: int): (lines: seq<(int, StatusMark)>)
    ensures var active := Filter(rows, IsActive);
      && |lines| == |active|
      && forall i :: 0 <= i < |lines| ==>
           && lines[i].0 == active[i].threadId
           && lines[i].1 == StatusOf(active[i], now)
           && (lines[i].1.Ready? <==> IsDue(active[i], now))
  {
    var active := Filter(rows, IsActive);
    assert forall i :: 0 <= i < |active| ==> active[i] in active && IsActive(active[i]);
    seq(|active|, i requires 0 <= i < |active| => (active[i].threadId, StatusOf(active[i], now)))
  }

  /** The `/status` lines of a listing are those of its parts, in order. */
  lemma StatusLinesAppend(a: seq<ThreadRow>, b: seq<ThreadRow>, now: int)
    ensures StatusLines(a + b, now) == StatusLines(a, now) + StatusLines(b, now)
  {
    FilterAppend(a, b, IsActive);
  }

  /** The pending list of the summary: active rows whose next time is still ahead. */
  function Pending(rows: seq<ThreadRow>, now: int): (r: seq<ThreadRow>)
    ensures forall x :: x in r <==> x in rows && x.isActive && x.nextBumpTime > now
    ensures forall x :: x in r ==> WaitSeconds(x.nextBumpTime, now) > 0
  {
    Filter(rows, PendingAt(now))
  }

  /** The test of the pending list's comprehension. */
  function PendingAt(now: int): ThreadRow -> bool {
    (t: ThreadRow) => t.isActive && t.nextBumpTime > now
  }

  /** How the summary shows a wait: hours are left out when there are none. */
  datatype WaitLabel = HoursAndMinutes(hours: nat, minutes: nat) | MinutesOnly(minutes: nat)

  function WaitLabelOf(w: nat): (l: WaitLabel)
    ensures l.minutes < 60
    ensures l.MinutesOnly? <==> w < SecondsPerHour
    ensures l.HoursAndMinutes? ==>
      l.hours > 0 && (l.hours, l.minutes) == Clock(w)
      && SecondsPerHour * l.hours + SecondsPerMinute * l.minutes <= w < SecondsPerHour * l.hours + SecondsPerMinute * l.minutes + SecondsPerMinute
    ensures l.MinutesOnly? ==>
      l.minutes == Clock(w).1 && SecondsPerMinute * l.minutes <= w < SecondsPerMinute * l.minutes + SecondsPerMinute
  {
    var (h, m) := Clock(w);
    if h > 0 then HoursAndMinutes(h, m) else MinutesOnly(m)
  }

  /** The summary after a cycle: the bumped threads and the pending ones with their waits. */
  datatype Summary = Summary(bumped: seq<int>, pending: seq<(int, WaitLabel)>)

  /** The ids of the successful results, in result order, one per success. */
  function BumpedIds(results: seq<Processed>): (ids: seq<int>)
    ensures |ids| <= |results|
    ensures forall id :: id in ids <==> exists i :: 0 <= i < |results| && results[i].outcome.Bumped? && results[i].threadId == id
  {
    if results == [] then []
    else
      var init := results[..|results| - 1];
      var last := results[|results| - 1];
      assert forall i :: 0 <= i < |init| ==> init[i] == results[i];
      BumpedIds(init) + (if last.outcome.Bumped? then [last.threadId] else [])
  }

  /** The bumped list is built result by result: that of a concatenation is those of its parts, in order. */
  lemma {:induction false} BumpedIdsAppend(a: seq<Processed>, b: seq<Processed>)
    ensures BumpedIds(a + b) == BumpedIds(a) + BumpedIds(b)
    decreases |b|
  {
    if b == [] {
      assert a + b == a;
    } else {
      var init := b[..|b| - 1];
      var last := b[|b| - 1];
      assert (a + b)[..|a + b| - 1] == a + init;
      assert (a + b)[|a + b| - 1] == last;
      BumpedIdsAppend(a, init);
    }
  }

  /** One result contributes its id exactly when it is a success. */
  lemma BumpedIdsOne(p: Processed)
    ensures BumpedIds([p]) == if p.outcome.Bumped? then [p.threadId] else []
  {
    assert [p][..0] == [];
  }

  /**
   * `_notify_summary`'s figures: the ids of the successful results, and for every active
   * row of the listing whose next time is ahead, its id and the label of its wait.
   */
  function SummaryOf(results: seq<Processed>, all: seq<ThreadRow>, now: int): (s: Summary)
    ensures s.bumped == BumpedIds(results)
    ensures |s.pending| == |Pending(all, now)|
    ensures forall id :: id in s.bumped <==>
      exists i :: 0 <= i < |results| && results[i].outcome.Bumped? && results[i].threadId == id
    ensures forall i :: 0 <= i < |s.pending| ==> IsPendingLine(all, now, s.pending[i])
    ensures forall r :: r in all && r.isActive && r.nextBumpTime > now ==>
      (r.threadId, WaitLabelOf(r.nextBumpTime - now)) in s.pending
  {
    var lines := PendingLines(Pending(all, now), now);
    PendingLinesOfListing(all, now, lines);
    Summary(BumpedIds(results), lines)
  }

  /** A summary line that belongs to an active row of `all` whose next time is after `now`. */
  predicate IsPendingLine(all: seq<ThreadRow>, now: int, line: (int, WaitLabel)) {
    exists r :: r in all && r.isActive && r.nextBumpTime > now && line == (r.threadId, WaitLabelOf(r.nextBumpTime - now))
  }

  /** One summary line per pending row: its id and the label of its wait. */
  function PendingLines(p: seq<ThreadRow>, now: int): seq<(int, WaitLabel)> {
    seq(|p|, i requires 0 <= i < |p| => (p[i].threadId, WaitLabelOf(WaitSeconds(p[i].nextBumpTime, now))))
  }

  /** The pending lines of a listing are those of its active rows with a next time ahead, and all of them. */
  lemma PendingLinesOfListing(all: seq<ThreadRow>, now: int, lines: seq<(int, WaitLabel)>)
    requires lines == PendingLines(Pending(all, now), now)
    ensures forall i :: 0 <= i < |lines| ==> IsPendingLine(all, now, lines[i])
    ensures forall r :: r in all && r.isActive && r.nextBumpTime > now ==>
      (r.threadId, WaitLabelOf(r.nextBumpTime - now)) in lines
  {
    var p := Pending(all, now);
    forall i | 0 <= i < |lines| ensures IsPendingLine(all, now, lines[i]) {
      var r := p[i];
      assert r in p;
      assert lines[i] == (r.threadId, WaitLabelOf(r.nextBumpTime - now));
    }
    forall r | r in all && r.isActive && r.nextBumpTime > now
      ensures (r.threadId, WaitLabelOf(r.nextBumpTime - now)) in lines
    {
      var k :| 0 <= k < |p| && p[k] == r;
      assert lines[k] == (r.threadId, WaitLabelOf(r.nextBumpTime - now));
    }
  }

  /** The pending lines of a concatenation of pending rows are those of its parts. */
  lemma PendingLinesAppend(pa: seq<ThreadRow>, pb: seq<ThreadRow>, now: int)
    ensures PendingLines(pa + pb, now) == PendingLines(pa, now) + PendingLines(pb, now)
  {
    var whole := PendingLines(pa + pb, now);
    var parts := PendingLines(pa, now) + PendingLines(pb, now);
    forall i | 0 <= i < |whole| ensures whole[i] == parts[i] {
      if i < |pa| {
        assert (pa + pb)[i] == pa[i];
      } else {
        assert (pa + pb)[i] == pb[i - |pa|];
      }
    }
  }

  /** A single row gives one pending line exactly when it is active with its next time ahead. */
  lemma SummaryOfOne(results: seq<Processed>, r: ThreadRow, now: int)
    ensures SummaryOf(results, [r], now).pending
         == if r.isActive && r.nextBumpTime > now then [(r.threadId, WaitLabelOf(r.nextBumpTime - now))] else []
  {
    FilterOne(r, PendingAt(now));
  }

  /** The pending part of the summary follows the listing's order: it splits as the listing does. */
  lemma SummaryFollowsListing(results: seq<Processed>, a: seq<ThreadRow>, b: seq<ThreadRow>, now: int)
    ensures SummaryOf(results, a + b, now).pending == SummaryOf(results, a, now).pending + SummaryOf(results, b, now).pending
  {
    FilterAppend(a, b, PendingAt(now));
    PendingLinesAppend(Pending(a, now), Pending(b, now), now);
  }
}
