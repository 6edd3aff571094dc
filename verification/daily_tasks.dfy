/** The daily-task engine: recurring habits whose "done" flag lapses at
    the UTC day boundary (lazily, whenever the list is read), whose streak
    counts check-ins, and which can be archived into an append-only
    history (backend.ts `getDailyTasks` … `deleteDailyHistoryEntry`). */
module DailyTasks {
  import opened Wrappers
  import opened Types
  import opened RecordStore
  import opened Clock
  import AttributeEngine
  import Seqs

  function TaskId(t: DailyTask): string {
    t.id
  }

  function HistoryId(h: DailyTaskHistory): string {
    h.id
  }

  /** The task was last checked in on `today`. */
  predicate DoneOn(t: DailyTask, today: string) {
    t.lastCompleted.Some? && DayKey(t.lastCompleted.value) == today
  }

  /** The day-boundary rule: a task stays done only if it was checked in
      today; nothing but the `completed` flag ever changes. */
  function Rollover(tasks: seq<DailyTask>, today: string): (r: seq<DailyTask>)
    ensures |r| == |tasks|
    ensures forall i :: 0 <= i < |tasks| ==> r[i] == tasks[i].(completed := r[i].completed)
    ensures forall i :: 0 <= i < |tasks| ==> (r[i].completed <==> tasks[i].completed && DoneOn(tasks[i], today))
  {
    seq(|tasks|, i requires 0 <= i < |tasks| =>
      if DoneOn(tasks[i], today) then tasks[i] else tasks[i].(completed := false))
  }

  /** A second rollover on the same day changes nothing. */
  lemma RolloverIdempotent(tasks: seq<DailyTask>, today: string)
    ensures Rollover(Rollover(tasks, today), today) == Rollover(tasks, today)
  {
  }

  /** `getDailyTasks`: the rolled-over list, persisted only when the
      rollover changed something. */
  function GetDailyTasks(s: Store, now: Instant): (r: (Store, seq<DailyTask>))
    ensures r.1 == Rollover(Tasks(s), DayKey(now.iso))
    ensures Tasks(r.0) == r.1
    ensures r.1 == Tasks(s) ==> r.0 == s
    ensures r.0 == s.(records := r.0.records)
    ensures forall e :: e != DailyTasksEndpoint ==> Read(r.0, e) == Read(s, e)
  {
    var tasks := Tasks(s);
    var updated := Rollover(tasks, DayKey(now.iso));
    if updated != tasks then (Write(s, DailyTasksEndpoint, TasksRecord(updated)), updated)
    else (s, updated)
  }

  /** Reading twice on the same day is reading once: the second read
      neither changes the list nor writes. */
  lemma GetDailyTasksIdempotent(s: Store, now: Instant)
    ensures GetDailyTasks(GetDailyTasks(s, now).0, now) == GetDailyTasks(s, now)
  {
    RolloverIdempotent(Tasks(s), DayKey(now.iso));
  }

  /** One task after a check-in toggle at time `iso`. */
  function ToggleOne(t: DailyTask, iso: string): (r: DailyTask)
    ensures r.id == t.id && r.title == t.title
    ensures r.completed == !t.completed
    ensures !t.completed ==> r.streak == t.streak + 1 && r.lastCompleted == Some(iso)
    ensures t.completed ==> r.lastCompleted == t.lastCompleted
    ensures t.completed && t.streak > 0 ==> r.streak == t.streak - 1
    ensures t.completed && t.streak == 0 ==> r.streak == 0
  {
    if !t.completed then t.(completed := true, streak := t.streak + 1, lastCompleted := Some(iso))
    else t.(completed := false, streak := if t.streak > 0 then t.streak - 1 else 0)
  }

  /** Applies the toggle to every task carrying `id`, leaving the rest. */
  function ToggleTasks(tasks: seq<DailyTask>, id: string, iso: string): (r: seq<DailyTask>)
    ensures |r| == |tasks|
    ensures forall i :: 0 <= i < |tasks| && tasks[i].id != id ==> r[i] == tasks[i]
    ensures forall i :: 0 <= i < |tasks| && tasks[i].id == id ==> r[i] == ToggleOne(tasks[i], iso)
  {
    seq(|tasks|, i requires 0 <= i < |tasks| =>
      if tasks[i].id == id then ToggleOne(tasks[i], iso) else tasks[i])
  }

  /** Number of tasks a toggle of `id` turns on; each issues a growth
      request. */
  function TurnOnCount(tasks: seq<DailyTask>, id: string): nat {
    if |tasks| == 0 then 0
    else TurnOnCount(tasks[..|tasks| - 1], id)
         + (if tasks[|tasks| - 1].id == id && !tasks[|tasks| - 1].completed then 1 else 0)
  }

  /** Growth granted for a check-in. */
  const CheckInGrowth: AttributeEngine.Growth := AttributeEngine.Growth(None, Some(0.01), None, None, None, Some(0.02))

  /** `toggleDailyTask(id)`: flips every task with that id in the
      rolled-over list (streak and last check-in as `ToggleOne` says),
      issues one check-in growth request per task turned on without
      waiting for it, and persists. The requests all read the scores
      before any writes back, so together they grant the growth once. */
  function ToggleDailyTask(s: Store, id: string, now: Instant): (r: (Store, seq<DailyTask>))
    ensures Tasks(r.0) == r.1
    ensures r.1 == ToggleTasks(GetDailyTasks(s, now).1, id, now.iso)
    ensures TurnOnCount(GetDailyTasks(s, now).1, id) == 0
            ==> r.0.attributes == s.attributes && r.0.lastSync == s.lastSync
    ensures TurnOnCount(GetDailyTasks(s, now).1, id) > 0 ==> r.0.lastSync == Some(now.ms)
    ensures TurnOnCount(GetDailyTasks(s, now).1, id) > 0
            && AttributeEngine.AllAtLeast(AttributeEngine.Stored(s), AttributeEngine.Floor)
            && (s.lastSync.None? || s.lastSync.value <= now.ms)
            ==> r.0.attributes == Some(AttributeEngine.Grow(AttributeEngine.GetActiveAttributes(s, now.ms).1, CheckInGrowth))
                && AttributeEngine.GrewBy(AttributeEngine.GetActiveAttributes(s, now.ms).1, r.0.attributes.value,
                                          0.0, 0.01, 0.0, 0.0, 0.0, 0.02)
    ensures forall e :: e != DailyTasksEndpoint ==> Read(r.0, e) == Read(s, e)
  {
    var (s1, tasks) := GetDailyTasks(s, now);
    var updated := ToggleTasks(tasks, id, now.iso);
    var s2 := AttributeEngine.UnawaitedGrowths(s1, now.ms, CheckInGrowth, TurnOnCount(tasks, id));
    (Write(s2, DailyTasksEndpoint, TasksRecord(updated)), updated)
  }

  /** After a toggle every task that is done was checked in today, so the
      next read on the same day does not roll anything over. */
  lemma ToggledListIsStable(tasks: seq<DailyTask>, id: string, now: Instant)
    requires forall i :: 0 <= i < |tasks| && tasks[i].completed ==> DoneOn(tasks[i], DayKey(now.iso))
    ensures Rollover(ToggleTasks(tasks, id, now.iso), DayKey(now.iso)) == ToggleTasks(tasks, id, now.iso)
  {
  }

  /** Toggling the same task twice on the same day restores its done flag,
      and its streak too unless it started done with a zero streak (the
      decrement stops at 0); other tasks are untouched. */
  lemma ToggleTwice(s: Store, id: string, now: Instant)
    ensures var before := GetDailyTasks(s, now).1;
            var after := ToggleDailyTask(ToggleDailyTask(s, id, now).0, id, now).1;
            |after| == |before|
            && (forall i :: 0 <= i < |before| ==> after[i].completed == before[i].completed)
            && (forall i :: 0 <= i < |before| && (!before[i].completed || before[i].streak > 0)
                  ==> after[i].streak == before[i].streak)
            && (forall i :: 0 <= i < |before| && before[i].id != id ==> after[i] == before[i])
  {
    var before := GetDailyTasks(s, now).1;
    var (s1, once) := ToggleDailyTask(s, id, now);
    ToggledListIsStable(before, id, now);
    assert GetDailyTasks(s1, now).1 == once;
  }

  /** `addDailyTask(title)`: appends one new task (id from the clock). */
  function AddDailyTask(s: Store, title: string, id: string, now: Instant): (r: (Store, seq<DailyTask>))
    ensures Tasks(r.0) == r.1
    ensures |r.1| == |GetDailyTasks(s, now).1| + 1
    ensures r.1[..|r.1| - 1] == GetDailyTasks(s, now).1
    ensures r.1[|r.1| - 1] == DailyTask(id, title, false, 0, None)
    ensures forall e :: e != DailyTasksEndpoint ==> Read(r.0, e) == Read(s, e)
  {
    var (s1, tasks) := GetDailyTasks(s, now);
    var updated := tasks + [DailyTask(id, title, false, 0, None)];
    (Write(s1, DailyTasksEndpoint, TasksRecord(updated)), updated)
  }

  /** `archiveDailyTask(id, status)`: an unknown id leaves the store as the
      rollover read left it; otherwise every task with the id leaves the
      active list and one history entry for the first of them (title,
      status, final streak) is put in front of the history. */
  function ArchiveDailyTask(s: Store, id: string, status: ArchiveStatus, entryId: string, now: Instant): (r: Store)
    ensures var tasks := GetDailyTasks(s, now).1;
            Seqs.FirstIndex(tasks, TaskId, id).None? ==> r == GetDailyTasks(s, now).0
    ensures var tasks := GetDailyTasks(s, now).1;
            Seqs.FirstIndex(tasks, TaskId, id).Some? ==>
              var t := tasks[Seqs.FirstIndex(tasks, TaskId, id).value];
              Tasks(r) == Seqs.RemoveId(tasks, TaskId, id)
              && History(r) == [DailyTaskHistory(entryId, t.title, status, now.iso, t.streak)] + History(s)
    ensures r == s.(records := r.records)
    ensures forall e :: e != DailyTasksEndpoint && e != DailyHistoryEndpoint ==> Read(r, e) == Read(s, e)
  {
    var (s1, tasks) := GetDailyTasks(s, now);
    match Seqs.FirstIndex(tasks, TaskId, id)
    case None => s1
    case Some(k) =>
      var t := tasks[k];
      var entry := DailyTaskHistory(entryId, t.title, status, now.iso, t.streak);
      var s2 := Write(s1, DailyTasksEndpoint, TasksRecord(Seqs.RemoveId(tasks, TaskId, id)));
      TasksAfterWrite(s1, DailyTasksEndpoint, TasksRecord(Seqs.RemoveId(tasks, TaskId, id)));
      HistoryAfterWrite(s1, DailyTasksEndpoint, TasksRecord(Seqs.RemoveId(tasks, TaskId, id)));
      TasksAfterWrite(s2, DailyHistoryEndpoint, HistoryRecord([entry] + History(s1)));
      HistoryAfterWrite(s2, DailyHistoryEndpoint, HistoryRecord([entry] + History(s1)));
      TwoWritesLeaveOthers(s1, DailyTasksEndpoint, TasksRecord(Seqs.RemoveId(tasks, TaskId, id)),
                           DailyHistoryEndpoint, HistoryRecord([entry] + History(s1)));
      Write(s2, DailyHistoryEndpoint, HistoryRecord([entry] + History(s1)))
  }

  /** `deleteDailyHistoryEntry(id)`: drops the entries with that id. */
  function DeleteDailyHistoryEntry(s: Store, id: string): (r: (Store, seq<DailyTaskHistory>))
    ensures History(r.0) == r.1
    ensures r.1 == Seqs.RemoveId(History(s), HistoryId, id)
    ensures |r.1| <= |History(s)|
    ensures forall i :: 0 <= i < |r.1| ==> r.1[i] in History(s) && r.1[i].id != id
    ensures forall i :: 0 <= i < |History(s)| && History(s)[i].id != id ==> History(s)[i] in r.1
    ensures r.0 == s.(records := r.0.records)
    ensures forall e :: e != DailyHistoryEndpoint ==> Read(r.0, e) == Read(s, e)
  {
    var updated := Seqs.RemoveId(History(s), HistoryId, id);
    (Write(s, DailyHistoryEndpoint, HistoryRecord(updated)), updated)
  }

  /** A task added and then archived leaves the active list as it was and
      records one history entry with a zero streak. */
  lemma AddThenArchive(s: Store, title: string, id: string, status: ArchiveStatus, entryId: string, now: Instant)
    requires forall i :: 0 <= i < |GetDailyTasks(s, now).1| ==> GetDailyTasks(s, now).1[i].id != id
    ensures var s1 := AddDailyTask(s, title, id, now).0;
            var r := ArchiveDailyTask(s1, id, status, entryId, now);
            Tasks(r) == GetDailyTasks(s, now).1
            && History(r) == [DailyTaskHistory(entryId, title, status, now.iso, 0)] + History(s)
  {
    var tasks := GetDailyTasks(s, now).1;
    var newTask := DailyTask(id, title, false, 0, None);
    var s1 := AddDailyTask(s, title, id, now).0;
    AddedTaskReadsBack(s, title, id, now);
    var added := tasks + [newTask];
    assert Seqs.FirstIndex(added, TaskId, id) == Some(|tasks|);
    assert Seqs.RemoveId(added, TaskId, id) == tasks by {
      Seqs.RemoveIdAppend(tasks, [newTask], TaskId, id);
      assert Seqs.RemoveId([newTask], TaskId, id) == [];
    }
    assert added[|tasks|] == newTask;
  }

  /** The list an add persisted is what the next same-day read returns. */
  lemma AddedTaskReadsBack(s: Store, title: string, id: string, now: Instant)
    ensures var s1 := AddDailyTask(s, title, id, now).0;
            GetDailyTasks(s1, now).1 == GetDailyTasks(s, now).1 + [DailyTask(id, title, false, 0, None)]
            && History(s1) == History(s)
  {
    var tasks := GetDailyTasks(s, now).1;
    var added := tasks + [DailyTask(id, title, false, 0, None)];
    var s1 := AddDailyTask(s, title, id, now).0;
    assert Tasks(s1) == added;
    assert Read(s1, DailyHistoryEndpoint) == Read(s, DailyHistoryEndpoint);
    assert Rollover(added, DayKey(now.iso)) == added;
  }

  /** Deleting the entry an archive just wrote restores the history, as
      long as its id was fresh. */
  lemma ArchiveThenDeleteEntry(s: Store, id: string, status: ArchiveStatus, entryId: string, now: Instant)
    requires Seqs.FirstIndex(GetDailyTasks(s, now).1, TaskId, id).Some?
    requires forall i :: 0 <= i < |History(s)| ==> History(s)[i].id != entryId
    ensures History(DeleteDailyHistoryEntry(ArchiveDailyTask(s, id, status, entryId, now), entryId).0) == History(s)
  {
    var r := ArchiveDailyTask(s, id, status, entryId, now);
    var h := History(r);
    assert h == [h[0]] + History(s);
    Seqs.RemoveIdAppend([h[0]], History(s), HistoryId, entryId);
    assert Seqs.RemoveId([h[0]], HistoryId, entryId) == [];
  }
}
