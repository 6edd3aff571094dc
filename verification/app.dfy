/** Rules the top-level application applies before calling the service:
    keeping today's sleep and work hours within one day, the life
    expectancy a preset stands for, which milestones the dashboard shows
    and in what order, milestone edits, and how a new log list is handed
    to the service (App.tsx). */
module App {
  import opened Wrappers
  import opened Types
  import opened RecordStore
  import opened MilestoneOrder
  import Numbers
  import Seqs
  import Backend
  import LogStore
  import AttributeEngine

  /** `handleSleepChange(val)`: sets today's sleep and, when sleep and
      work would exceed a day, cuts work down to the rest of the day. */
  function HandleSleepChange(st: UserSettings, val: real): (r: UserSettings)
    ensures r == st.(todaySleepTime := val, todayWorkTime := r.todayWorkTime)
    ensures r.todaySleepTime + r.todayWorkTime <= 24.0
    ensures r.todayWorkTime == Numbers.MinReal(st.todayWorkTime, 24.0 - val)
    ensures val <= 24.0 && st.todayWorkTime >= 0.0 ==> r.todayWorkTime >= 0.0
  {
    var r := st.(todaySleepTime := val);
    if val + st.todayWorkTime > 24.0 then r.(todayWorkTime := 24.0 - val) else r
  }

  /** `handleWorkChange(val)`: the same rule with the roles swapped. */
  function HandleWorkChange(st: UserSettings, val: real): (r: UserSettings)
    ensures r == st.(todayWorkTime := val, todaySleepTime := r.todaySleepTime)
    ensures r.todaySleepTime + r.todayWorkTime <= 24.0
    ensures r.todaySleepTime == Numbers.MinReal(st.todaySleepTime, 24.0 - val)
    ensures val <= 24.0 && st.todaySleepTime >= 0.0 ==> r.todaySleepTime >= 0.0
  {
    var r := st.(todayWorkTime := val);
    if val + st.todaySleepTime > 24.0 then r.(todaySleepTime := 24.0 - val) else r
  }

  /** Setting the same sleep hours twice is setting them once, and a
      later work change keeps the day within 24 hours too. */
  lemma SleepWorkChangesKeepDay(st: UserSettings, sleep: real, work: real)
    ensures HandleSleepChange(HandleSleepChange(st, sleep), sleep) == HandleSleepChange(st, sleep)
    ensures var r := HandleWorkChange(HandleSleepChange(st, sleep), work);
            r.todayWorkTime == work && r.todaySleepTime + r.todayWorkTime <= 24.0
  {
  }

  /** A sleep change into the healthy band earns the health growth when
      the new settings are saved. */
  lemma HealthySleepChangeGrows(s: Store, st: UserSettings, val: real, now: int)
    requires 7.0 <= val <= 9.0
    ensures var r := Backend.UpdateSettings(s, HandleSleepChange(st, val), now).0;
            r.lastSync == Some(now)
            && r.attributes == Some(AttributeEngine.Grow(AttributeEngine.GetActiveAttributes(s, now).1, Backend.SleepGrowth))
  {
  }

  /** `currentExpectancy`: the average preset is 73 years, the healthy one
      95, otherwise the custom figure. */
  function CurrentExpectancy(st: UserSettings): (years: int)
    ensures st.lifeExpectancyPreset == AveragePreset ==> years == 73
    ensures st.lifeExpectancyPreset == HealthyPreset ==> years == 95
    ensures st.lifeExpectancyPreset == CustomPreset ==> years == st.customLifeExpectancy
  {
    match st.lifeExpectancyPreset
    case AveragePreset => 73
    case HealthyPreset => 95
    case CustomPreset => st.customLifeExpectancy
  }

  /** The expectancy the life-progress computation uses, which reads a
      zero custom figure as 85. */
  function ProgressExpectancy(st: UserSettings): int {
    if st.lifeExpectancyPreset == AveragePreset then 73
    else if st.lifeExpectancyPreset == HealthyPreset then 95
    else if st.customLifeExpectancy != 0 then st.customLifeExpectancy
    else 85
  }

  /** The displayed expectancy and the one the progress bar uses agree
      exactly when the custom figure is not zero or is not in use. */
  lemma ExpectanciesAgree(st: UserSettings)
    ensures CurrentExpectancy(st) == ProgressExpectancy(st)
            <==> st.lifeExpectancyPreset != CustomPreset || st.customLifeExpectancy != 0
  {
  }

  predicate IsOpen(m: Milestone) {
    m.status == Pending || m.status == LongTerm
  }

  /** The pending and long-term milestones, in order. */
  function OpenMilestones(ms: seq<Milestone>): (r: seq<Milestone>)
    ensures forall i :: 0 <= i < |r| ==> IsOpen(r[i]) && r[i] in ms
    ensures forall i :: 0 <= i < |ms| && IsOpen(ms[i]) ==> ms[i] in r
    ensures |r| <= |ms|
    ensures (forall i :: 0 <= i < |ms| ==> IsOpen(ms[i])) ==> r == ms
  {
    if |ms| == 0 then []
    else (if IsOpen(ms[0]) then [ms[0]] else []) + OpenMilestones(ms[1..])
  }

  /** The filter works piece by piece: the open milestones of two lists
      joined are those of the first followed by those of the second. With
      the one-element cases (kept exactly when open) this makes it the
      order-preserving filter. */
  lemma {:induction false} OpenMilestonesAppend(a: seq<Milestone>, b: seq<Milestone>, m: Milestone)
    ensures OpenMilestones(a + b) == OpenMilestones(a) + OpenMilestones(b)
    ensures OpenMilestones([m]) == if IsOpen(m) then [m] else []
    decreases |a|
  {
    assert [m][1..] == [];
    if |a| == 0 {
      assert a + b == b;
    } else {
      assert (a + b)[1..] == a[1..] + b;
      OpenMilestonesAppend(a[1..], b, m);
    }
  }

  /** A milestone is urgent once its age has been reached. */
  predicate Urgent(m: Milestone, yearsElapsed: int) {
    Age(m) <= yearsElapsed
  }

  /** The dashboard comparator as written: urgent before non-urgent, then
      ascending age. */
  function DashboardCompare(a: Milestone, b: Milestone, yearsElapsed: int): int {
    if Urgent(a, yearsElapsed) && !Urgent(b, yearsElapsed) then -1
    else if !Urgent(a, yearsElapsed) && Urgent(b, yearsElapsed) then 1
    else Age(a) - Age(b)
  }

  /** Urgency is decided by age, so the comparator orders exactly as the
      ages do; the stable sort it drives is the sort by age. */
  lemma DashboardCompareIsAgeOrder(a: Milestone, b: Milestone, yearsElapsed: int)
    ensures DashboardCompare(a, b, yearsElapsed) < 0 <==> Age(a) < Age(b)
    ensures DashboardCompare(a, b, yearsElapsed) == 0 <==> Age(a) == Age(b)
  {
  }

  const DashboardSize: nat := 3

  /** `dashboardMilestones`: the three most urgent open milestones. */
  function DashboardMilestones(ms: seq<Milestone>, yearsElapsed: int): (r: seq<Milestone>)
    ensures |r| <= DashboardSize
    ensures forall i :: 0 <= i < |r| ==> IsOpen(r[i]) && r[i] in ms
    ensures forall i, j :: 0 <= i < j < |r| && Urgent(r[j], yearsElapsed) ==> Urgent(r[i], yearsElapsed)
    ensures SortedByAge(r)
    ensures |r| == Seqs.Min(DashboardSize, |OpenMilestones(ms)|)
  {
    var sorted := SortByAge(OpenMilestones(ms));
    var r := Seqs.Take(sorted, DashboardSize);
    PrefixOfSortedOpen(ms, sorted, r, yearsElapsed);
    r
  }

  /** A prefix of the open milestones sorted by age holds open milestones
      of the list, in age order, so the urgent ones first. */
  lemma PrefixOfSortedOpen(ms: seq<Milestone>, sorted: seq<Milestone>, r: seq<Milestone>, yearsElapsed: int)
    requires multiset(sorted) == multiset(OpenMilestones(ms)) && SortedByAge(sorted)
    requires |r| <= |sorted| && r == sorted[..|r|]
    ensures forall i :: 0 <= i < |r| ==> IsOpen(r[i]) && r[i] in ms
    ensures SortedByAge(r)
    ensures forall i, j :: 0 <= i < j < |r| && Urgent(r[j], yearsElapsed) ==> Urgent(r[i], yearsElapsed)
  {
    forall i | 0 <= i < |r| ensures IsOpen(r[i]) && r[i] in ms {
      assert r[i] == sorted[i];
      assert sorted[i] in multiset(OpenMilestones(ms));
    }
    forall i, j | 0 <= i < j < |r| ensures Age(r[i]) <= Age(r[j]) {
      assert r[i] == sorted[i] && r[j] == sorted[j];
    }
  }

  /** Nothing more urgent is left off the dashboard: an open milestone of
      lower age than a shown one is shown too. */
  lemma DashboardShowsMostUrgent(ms: seq<Milestone>, yearsElapsed: int, m: Milestone, i: nat)
    requires m in OpenMilestones(ms)
    requires i < |DashboardMilestones(ms, yearsElapsed)|
    requires Age(m) < Age(DashboardMilestones(ms, yearsElapsed)[i])
    ensures m in DashboardMilestones(ms, yearsElapsed)
  {
    var sorted := SortByAge(OpenMilestones(ms));
    assert m in multiset(sorted);
    SortedPrefixHoldsYounger(sorted, |DashboardMilestones(ms, yearsElapsed)|, m, i);
  }

  /** `handleAddMilestone`: appends the new milestone. */
  function AddMilestone(ms: seq<Milestone>, m: Milestone): (r: seq<Milestone>)
    ensures |r| == |ms| + 1 && r[..|ms|] == ms && r[|ms|] == m
  {
    ms + [m]
  }

  /** The fields of a partial milestone update that the views send. */
  datatype MilestonePatch = MilestonePatch(status: Option<MilestoneStatus>, date: Option<string>)

  /** The milestone with the patch's fields laid over it. */
  function ApplyPatch(m: Milestone, p: MilestonePatch): (r: Milestone)
    ensures r.id == m.id && r.title == m.title && r.estimatedAge == m.estimatedAge && r.category == m.category
    ensures r.status == p.status.GetOr(m.status)
    ensures r.date == (if p.date.Some? then p.date else m.date)
  {
    m.(status := p.status.GetOr(m.status), date := if p.date.Some? then p.date else m.date)
  }

  /** `handleUpdateMilestone(id, patch)`: merges the patch into every
      milestone with that id; the others are kept as they are. */
  function UpdateMilestone(ms: seq<Milestone>, id: string, p: MilestonePatch): (r: seq<Milestone>)
    ensures |r| == |ms|
    ensures forall i :: 0 <= i < |ms| && ms[i].id != id ==> r[i] == ms[i]
    ensures forall i :: 0 <= i < |ms| && ms[i].id == id ==> r[i] == ApplyPatch(ms[i], p)
  {
    seq(|ms|, i requires 0 <= i < |ms| => if ms[i].id == id then ApplyPatch(ms[i], p) else ms[i])
  }

  /** Applying the same update twice is applying it once, and updating an
      id nobody has changes nothing. */
  lemma UpdateMilestoneIdempotent(ms: seq<Milestone>, id: string, p: MilestonePatch)
    ensures UpdateMilestone(UpdateMilestone(ms, id, p), id, p) == UpdateMilestone(ms, id, p)
    ensures (forall i :: 0 <= i < |ms| ==> ms[i].id != id) ==> UpdateMilestone(ms, id, p) == ms
  {
  }

  /** Marking a milestone completed never lowers the completed count, and
      raises it when some milestone with that id was not completed yet. */
  lemma {:induction false} CompletingRaisesCount(ms: seq<Milestone>, id: string, p: MilestonePatch)
    requires p.status == Some(Completed)
    ensures Backend.CountCompleted(UpdateMilestone(ms, id, p)) >= Backend.CountCompleted(ms)
    ensures (exists i :: 0 <= i < |ms| && ms[i].id == id && ms[i].status != Completed)
            ==> Backend.CountCompleted(UpdateMilestone(ms, id, p)) > Backend.CountCompleted(ms)
    decreases |ms|
  {
    if |ms| > 0 {
      var init := ms[..|ms| - 1];
      var r := UpdateMilestone(ms, id, p);
      assert r[..|ms| - 1] == UpdateMilestone(init, id, p);
      CompletingRaisesCount(init, id, p);
      if exists i :: 0 <= i < |ms| && ms[i].id == id && ms[i].status != Completed {
        var i :| 0 <= i < |ms| && ms[i].id == id && ms[i].status != Completed;
        if i < |ms| - 1 {
          assert init[i] == ms[i];
        }
      }
    }
  }

  /** Completing a milestone that was open, through the update handler,
      earns the milestone growth when the list is saved. */
  lemma CompletingEarnsGrowth(s: Store, id: string, year: string, now: int)
    requires exists i :: 0 <= i < |Milestones(s)| && Milestones(s)[i].id == id && Milestones(s)[i].status != Completed
    ensures var updated := UpdateMilestone(Milestones(s), id, MilestonePatch(Some(Completed), Some(year)));
            var r := Backend.SaveMilestones(s, updated, now);
            r.lastSync == Some(now)
            && r.attributes == Some(AttributeEngine.Grow(AttributeEngine.GetActiveAttributes(s, now).1, Backend.MilestoneGrowth))
  {
    CompletingRaisesCount(Milestones(s), id, MilestonePatch(Some(Completed), Some(year)));
  }

  /** `handleUpdateLogs(updated)`: a longer list means one entry was added
      in front and goes through `addLog` (with its growth); otherwise the
      list replaces the stored one. */
  function HandleUpdateLogs(s: Store, current: seq<LogEntry>, updated: seq<LogEntry>, now: int): (r: Store)
    ensures |updated| > |current| ==> Logs(r) == [updated[0]] + Logs(s) && r.lastSync == Some(now)
    ensures |updated| > |current|
            ==> r.attributes == Some(AttributeEngine.Grow(AttributeEngine.GetActiveAttributes(s, now).1,
                                                          LogStore.LogGrowth(updated[0])))
    ensures |updated| <= |current| ==> Logs(r) == updated && r.attributes == s.attributes
  {
    if |updated| > |current| then LogStore.AddLog(s, updated[0], now)
    else LogStore.SaveLogs(s, updated)
  }

  /** When the view's list matches the stored log, the stored log follows
      the view's: after an add in front, and after any edit that does not
      lengthen it. */
  lemma UpdateLogsKeepsStoreInStep(s: Store, entry: LogEntry, edited: seq<LogEntry>, now: int)
    requires |edited| <= |Logs(s)|
    ensures Logs(HandleUpdateLogs(s, Logs(s), [entry] + Logs(s), now)) == [entry] + Logs(s)
    ensures Logs(HandleUpdateLogs(s, Logs(s), edited, now)) == edited
  {
  }
}
