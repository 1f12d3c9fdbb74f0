/** The backend task document (server/models/Task.js): the save hook that
    ties `completedAt` to `status`, the checklist and time-log methods, and
    the checklist completion percentage. Each method works on an in-memory
    document before `save()`; the result is the document it would save. */
module TaskDocument {
  import opened Wrappers
  import opened Model
  import opened Percent
  import Seqs
  import Text

  /** The pre-save hook. `statusModified` is mongoose's
      `isModified('status')`; `now` is the clock. Whenever the status was
      written, the saved document keeps the coupling; an existing completion
      time survives a re-save as completed. */
  function PreSave(t: Task, statusModified: bool, now: int): (r: Task)
    ensures r == t.(completedAt := r.completedAt)
    ensures !statusModified ==> r == t
    ensures statusModified ==> Coupled(r)
    ensures statusModified && t.status == Completed && t.completedAt.Some? ==> r.completedAt == t.completedAt
    ensures statusModified && t.status == Completed && t.completedAt.None? ==> r.completedAt == Some(now)
  {
    if statusModified && t.status == Completed && t.completedAt.None? then t.(completedAt := Some(now))
    else if statusModified && t.status != Completed then t.(completedAt := None)
    else t
  }

  /** Saving again with the status marked modified changes nothing more:
      the hook is idempotent, whatever the second clock reading. */
  lemma PreSaveIdempotent(t: Task, now: nat, later: nat)
    ensures PreSave(PreSave(t, true, now), true, later) == PreSave(t, true, now)
  {
  }

  /** When the status is not marked modified the hook does not repair a
      broken coupling: a completed task without a completion time stays so. */
  lemma PreSaveKeepsUnmodifiedGap(t: Task, now: int)
    requires t.status == Completed && t.completedAt.None?
    ensures !Coupled(PreSave(t, false, now))
  {
  }

  predicate ItemDone(c: ChecklistItem) {
    c.completed
  }

  /** The `completionPercentage` virtual: without a checklist it is 100 for
      a completed task and 0 otherwise; with one it is the share of ticked
      items, rounded half up. */
  function CompletionPercentage(t: Task): (r: nat)
    ensures r <= 100
    ensures |t.checklist| == 0 ==> (r == 100 <==> t.status == Completed) && (r == 0 <==> t.status != Completed)
    ensures |t.checklist| > 0 ==>
      var n, done := |t.checklist|, Seqs.Count(t.checklist, ItemDone);
      2 * n * r <= 200 * done + n < 2 * n * (r + 1)
    ensures |t.checklist| > 0 && (forall i :: 0 <= i < |t.checklist| ==> t.checklist[i].completed) ==> r == 100
    ensures |t.checklist| > 0 && (forall i :: 0 <= i < |t.checklist| ==> !t.checklist[i].completed) ==> r == 0
  {
    if |t.checklist| == 0 then (if t.status == Completed then 100 else 0)
    else
      var done := Seqs.Count(t.checklist, ItemDone);
      AllTickedCount(t.checklist);
      RoundEnds(|t.checklist|);
      RoundPercent(done, |t.checklist|)
  }

  lemma AllTickedCount(c: seq<ChecklistItem>)
    ensures (forall i :: 0 <= i < |c| ==> c[i].completed) ==> Seqs.Count(c, ItemDone) == |c|
  {
    if forall i :: 0 <= i < |c| ==> c[i].completed {
      Seqs.FilterKeepsAll(c, ItemDone);
    }
  }

  predicate AllItemsCoupled(t: Task) {
    forall i :: 0 <= i < |t.checklist| ==> ItemCoupled(t.checklist[i])
  }

  /** What the schema's `required` demands of every checklist entry: a
      text that is not empty once trimmed. `save()` rejects a task whose
      checklist breaks it. */
  predicate ItemsPresent(t: Task) {
    forall i :: 0 <= i < |t.checklist| ==> t.checklist[i].item != ""
  }

  /** `addChecklistItem`: appends one unticked entry (the schema trims the
      text); nothing else changes. The document it hands to `save()` passes
      the schema exactly when the old one did and the trimmed text is not
      empty, so an item of blanks is refused. */
  function AddChecklistItem(t: Task, item: string): (r: Task)
    ensures r == t.(checklist := r.checklist)
    ensures |r.checklist| == |t.checklist| + 1 && r.checklist[..|t.checklist|] == t.checklist
    ensures var c := r.checklist[|t.checklist|]; !c.completed && c.completedAt.None? && c.item == Text.Trim(item)
    ensures ItemsPresent(r) <==> ItemsPresent(t) && Text.Trim(item) != ""
  {
    var r := t.(checklist := t.checklist + [ChecklistItem(Text.Trim(item), false, None)]);
    ItemsPresentAppend(t, r);
    r
  }

  /** Appending one entry keeps the schema's demand exactly when the entry
      meets it itself. */
  lemma ItemsPresentAppend(t: Task, r: Task)
    requires |r.checklist| == |t.checklist| + 1 && r.checklist[..|t.checklist|] == t.checklist
    ensures ItemsPresent(r) <==> ItemsPresent(t) && r.checklist[|t.checklist|].item != ""
  {
    forall i | 0 <= i < |t.checklist| ensures r.checklist[i] == t.checklist[i] {
      assert r.checklist[..|t.checklist|][i] == r.checklist[i];
    }
  }

  lemma AddChecklistItemKeepsCoupling(t: Task, item: string)
    requires AllItemsCoupled(t)
    ensures AllItemsCoupled(AddChecklistItem(t, item))
  {
  }

  /** `toggleChecklistItem`: an in-range index flips that entry and sets or
      clears its time to match; any other index is silently ignored. */
  function ToggleChecklistItem(t: Task, i: int, now: int): (r: Task)
    ensures r == t.(checklist := r.checklist) && |r.checklist| == |t.checklist|
    ensures !(0 <= i < |t.checklist|) ==> r == t
    ensures forall j :: 0 <= j < |t.checklist| && j != i ==> r.checklist[j] == t.checklist[j]
    ensures 0 <= i < |t.checklist| ==>
      && r.checklist[i].item == t.checklist[i].item
      && r.checklist[i].completed == !t.checklist[i].completed
      && ItemCoupled(r.checklist[i])
      && (r.checklist[i].completed ==> r.checklist[i].completedAt == Some(now))
  {
    if 0 <= i < |t.checklist| then
      var c := t.checklist[i];
      var flipped := c.(completed := !c.completed, completedAt := if !c.completed then Some(now) else None);
      t.(checklist := t.checklist[i := flipped])
    else t
  }

  /** Toggling the same entry twice restores its tick and whether it carries
      a time (the time itself is the second clock reading). */
  lemma {:induction false} ToggleTwiceRestores(t: Task, i: int, now: int, later: int)
    requires ItemCoupled(if 0 <= i < |t.checklist| then t.checklist[i] else ChecklistItem("", false, None))
    ensures var r := ToggleChecklistItem(ToggleChecklistItem(t, i, now), i, later);
      && |r.checklist| == |t.checklist|
      && forall j :: 0 <= j < |t.checklist| ==>
           r.checklist[j].completed == t.checklist[j].completed &&
           r.checklist[j].completedAt.Some? == t.checklist[j].completedAt.Some?
  {
    var once := ToggleChecklistItem(t, i, now);
    var r := ToggleChecklistItem(once, i, later);
    forall j | 0 <= j < |t.checklist|
      ensures r.checklist[j].completed == t.checklist[j].completed
      ensures r.checklist[j].completedAt.Some? == t.checklist[j].completedAt.Some?
    {
      if j == i {
        assert ItemCoupled(r.checklist[j]);
      }
    }
  }

  lemma ToggleKeepsCoupling(t: Task, i: int, now: int)
    requires AllItemsCoupled(t)
    ensures AllItemsCoupled(ToggleChecklistItem(t, i, now))
  {
  }

  /** A log of `user` that is still running. */
  function OpenFor(user: int): TimeLog -> bool {
    (l: TimeLog) => l.user == user && l.endTime.None?
  }

  /** `k` is the first running log of `user`: the one `Array.prototype.find` picks. */
  predicate FirstOpenAt(logs: seq<TimeLog>, user: int, k: int) {
    Seqs.IsFirst(logs, OpenFor(user), k)
  }

  /** `startTimeTracking`: appends a running log for `user` starting now. No
      check is made for a log the user already has running. A caller that
      omits the description gets the default `''`, modelled by passing "". */
  function StartTimeTracking(t: Task, user: int, now: int, description: string): (r: Task)
    ensures r == t.(timeLogs := r.timeLogs)
    ensures |r.timeLogs| == |t.timeLogs| + 1 && r.timeLogs[..|t.timeLogs|] == t.timeLogs
    ensures var l := r.timeLogs[|t.timeLogs|];
      l.user == user && l.startTime == now && l.endTime.None? && l.description == description
    ensures Seqs.Count(r.timeLogs, OpenFor(user)) == Seqs.Count(t.timeLogs, OpenFor(user)) + 1
  {
    var r := t.(timeLogs := t.timeLogs + [TimeLog(user, now, None, description)]);
    Seqs.FilterAppend(t.timeLogs, [TimeLog(user, now, None, description)], OpenFor(user));
    r
  }

  /** `stopTimeTracking`: stamps the end time on the first running log of
      `user` only; without one the logs are left as they were. */
  function StopTimeTracking(t: Task, user: int, now: int): (r: Task)
    ensures r == t.(timeLogs := r.timeLogs) && |r.timeLogs| == |t.timeLogs|
    ensures Seqs.NoneMatch(t.timeLogs, OpenFor(user)) ==> r == t
    ensures forall k :: FirstOpenAt(t.timeLogs, user, k) ==>
      && r.timeLogs[k] == t.timeLogs[k].(endTime := Some(now))
      && forall j :: 0 <= j < |t.timeLogs| && j != k ==> r.timeLogs[j] == t.timeLogs[j]
  {
    match Seqs.FindFirst(t.timeLogs, OpenFor(user))
    case None => t
    case Some(k) => t.(timeLogs := t.timeLogs[k := t.timeLogs[k].(endTime := Some(now))])
  }

  /** What one log adds to the total: its length once closed, nothing while running. */
  function Elapsed(l: TimeLog): int {
    if l.endTime.Some? then l.endTime.value - l.startTime else 0
  }

  /** Every closed log ends no earlier than it starts; the source never checks this. */
  predicate WellOrdered(logs: seq<TimeLog>) {
    forall i :: 0 <= i < |logs| && logs[i].endTime.Some? ==> logs[i].startTime <= logs[i].endTime.value
  }

  /** `getTotalTimeSpent`: the summed length of the closed logs; running
      logs count for nothing. */
  function TotalTimeSpent(logs: seq<TimeLog>): (total: int)
    ensures WellOrdered(logs) ==> total >= 0
    ensures (forall i :: 0 <= i < |logs| ==> logs[i].endTime.None?) ==> total == 0
  {
    if |logs| == 0 then 0 else Elapsed(logs[0]) + TotalTimeSpent(logs[1..])
  }

  lemma {:induction false} TotalAppend(a: seq<TimeLog>, b: seq<TimeLog>)
    ensures TotalTimeSpent(a + b) == TotalTimeSpent(a) + TotalTimeSpent(b)
  {
    if |a| == 0 {
      assert a + b == b;
    } else {
      assert (a + b)[1..] == a[1..] + b;
      TotalAppend(a[1..], b);
    }
  }

  lemma {:induction false} TotalUpdate(logs: seq<TimeLog>, k: nat, l: TimeLog)
    requires k < |logs|
    ensures TotalTimeSpent(logs[k := l]) == TotalTimeSpent(logs) - Elapsed(logs[k]) + Elapsed(l)
  {
    if k == 0 {
      assert logs[k := l][1..] == logs[1..];
    } else {
      assert logs[k := l][1..] == logs[1..][k - 1 := l];
      TotalUpdate(logs[1..], k - 1, l);
    }
  }

  /** Starting a log leaves the total unchanged: the new log is still running. */
  lemma StartKeepsTotal(t: Task, user: int, now: int, description: string)
    ensures TotalTimeSpent(StartTimeTracking(t, user, now, description).timeLogs) == TotalTimeSpent(t.timeLogs)
  {
    TotalAppend(t.timeLogs, [TimeLog(user, now, None, description)]);
  }

  /** Stopping the first running log of `user` adds exactly its length to
      the total, and leaves that user one running log fewer. */
  lemma StopAddsElapsed(t: Task, user: int, now: int, k: int)
    requires FirstOpenAt(t.timeLogs, user, k)
    ensures TotalTimeSpent(StopTimeTracking(t, user, now).timeLogs)
         == TotalTimeSpent(t.timeLogs) + (now - t.timeLogs[k].startTime)
    ensures Seqs.Count(StopTimeTracking(t, user, now).timeLogs, OpenFor(user))
         == Seqs.Count(t.timeLogs, OpenFor(user)) - 1
  {
    var closed := t.timeLogs[k].(endTime := Some(now));
    TotalUpdate(t.timeLogs, k, closed);
    Seqs.CountUpdate(t.timeLogs, k, closed, OpenFor(user));
  }

  /** Starting twice without stopping leaves two running logs for the user:
      nothing enforces one running log per user. */
  lemma DoubleStartKeepsBothOpen(t: Task, user: int, now: int, later: int)
    requires Seqs.Count(t.timeLogs, OpenFor(user)) == 0
    ensures Seqs.Count(StartTimeTracking(StartTimeTracking(t, user, now, ""), user, later, "").timeLogs, OpenFor(user)) == 2
  {
  }
}
