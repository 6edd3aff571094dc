/** The remaining service operations: saving settings and milestones, each
    with its growth trigger, and the analytics report derived from the
    attributes (backend.ts `updateSettings`, `saveMilestones`,
    `getUserAnalytics`). */
module Backend {
  import opened Wrappers
  import opened Types
  import opened RecordStore
  import opened AttributeEngine
  import Numbers

  /** Growth for a night of 7 to 9 hours of sleep. */
  const SleepGrowth: Growth := Growth(Some(0.05), None, None, None, None, None)
  /** Growth for completing a milestone. */
  const MilestoneGrowth: Growth := Growth(None, None, Some(0.15), None, Some(0.15), None)

  predicate HealthySleep(hours: real) {
    7.0 <= hours <= 9.0
  }

  /** `updateSettings`: grants the sleep growth when today's sleep is in
      the healthy band, then stores the settings. */
  function UpdateSettings(s: Store, settings: UserSettings, now: int): (r: (Store, UserSettings))
    ensures Settings(r.0) == settings && r.1 == settings
    ensures HealthySleep(settings.todaySleepTime) ==> r.0.lastSync == Some(now)
    ensures HealthySleep(settings.todaySleepTime)
            ==> r.0.attributes == Some(Grow(GetActiveAttributes(s, now).1, SleepGrowth))
    ensures HealthySleep(settings.todaySleepTime)
            ==> GrewBy(GetActiveAttributes(s, now).1, r.0.attributes.value, 0.05, 0.0, 0.0, 0.0, 0.0, 0.0)
    ensures !HealthySleep(settings.todaySleepTime) ==> r.0.attributes == s.attributes && r.0.lastSync == s.lastSync
    ensures forall e :: e != SettingsEndpoint ==> Read(r.0, e) == Read(s, e)
  {
    var s1 := if HealthySleep(settings.todaySleepTime) then ApplyGrowth(s, now, SleepGrowth) else s;
    SettingsAfterWrite(s1, SettingsEndpoint, SettingsRecord(settings));
    (Write(s1, SettingsEndpoint, SettingsRecord(settings)), settings)
  }

  /** The statuses of a milestone list, in order. */
  function Statuses(ms: seq<Milestone>): (r: seq<MilestoneStatus>)
    ensures |r| == |ms| && forall i :: 0 <= i < |ms| ==> r[i] == ms[i].status
  {
    seq(|ms|, i requires 0 <= i < |ms| => ms[i].status)
  }

  function CountCompleted(ms: seq<Milestone>): (n: nat)
    ensures n <= |ms|
  {
    if |ms| == 0 then 0
    else CountCompleted(ms[..|ms| - 1]) + (if ms[|ms| - 1].status == Completed then 1 else 0)
  }

  /** The completed count is the multiplicity of `Completed` among the
      statuses; it is zero exactly when no milestone is completed and the
      whole length exactly when every one is. */
  lemma {:induction false} CountCompletedCounts(ms: seq<Milestone>)
    ensures CountCompleted(ms) == multiset(Statuses(ms))[Completed]
    ensures CountCompleted(ms) == 0 <==> forall i :: 0 <= i < |ms| ==> ms[i].status != Completed
    ensures CountCompleted(ms) == |ms| <==> forall i :: 0 <= i < |ms| ==> ms[i].status == Completed
    decreases |ms|
  {
    if |ms| > 0 {
      var init := ms[..|ms| - 1];
      CountCompletedCounts(init);
      assert Statuses(ms) == Statuses(init) + [ms[|ms| - 1].status];
      assert forall i :: 0 <= i < |init| ==> init[i] == ms[i];
    }
  }

  /** `saveMilestones`: grants the milestone growth when the new list has
      more completed milestones than the stored one, then stores the list. */
  function SaveMilestones(s: Store, ms: seq<Milestone>, now: int): (r: Store)
    ensures Milestones(r) == ms
    ensures CountCompleted(ms) > CountCompleted(Milestones(s)) ==> r.lastSync == Some(now)
    ensures CountCompleted(ms) > CountCompleted(Milestones(s))
            ==> r.attributes == Some(Grow(GetActiveAttributes(s, now).1, MilestoneGrowth))
    ensures CountCompleted(ms) > CountCompleted(Milestones(s))
            ==> GrewBy(GetActiveAttributes(s, now).1, r.attributes.value, 0.0, 0.0, 0.15, 0.0, 0.15, 0.0)
    ensures CountCompleted(ms) <= CountCompleted(Milestones(s)) ==> r.attributes == s.attributes && r.lastSync == s.lastSync
    ensures forall e :: e != MilestonesEndpoint ==> Read(r, e) == Read(s, e)
  {
    var s1 := if CountCompleted(ms) > CountCompleted(Milestones(s)) then ApplyGrowth(s, now, MilestoneGrowth) else s;
    MilestonesAfterWrite(s1, MilestonesEndpoint, MilestonesRecord(ms));
    Write(s1, MilestonesEndpoint, MilestonesRecord(ms))
  }

  /** Saving the stored list again grants nothing. */
  lemma ResaveGrantsNothing(s: Store, now: int)
    ensures SaveMilestones(s, Milestones(s), now).attributes == s.attributes
  {
  }

  /** Marking one more milestone completed grants the growth once; saving
      the same list again grants nothing more. */
  lemma CompletionGrantsOnce(s: Store, ms: seq<Milestone>, now: int)
    requires CountCompleted(ms) > CountCompleted(Milestones(s))
    ensures var s1 := SaveMilestones(s, ms, now);
            s1.lastSync == Some(now)
            && s1.attributes == Some(Grow(GetActiveAttributes(s, now).1, MilestoneGrowth))
            && SaveMilestones(s1, ms, now).attributes == s1.attributes
  {
  }

  /** `getUserAnalytics`: reads the attributes (with decay) and derives
      mood stability `85 + 10*spirit`, focus score `round(100*mind)` and
      the fixed books-read count 12. */
  function GetUserAnalytics(s: Store, now: int): (r: (Store, UserAnalytics))
    ensures r.0 == GetActiveAttributes(s, now).0
    ensures r.1.attributes == GetActiveAttributes(s, now).1
    ensures r.1.booksRead == 12
    ensures r.1.focusScore == Numbers.Round(100.0 * r.1.attributes.mind)
    ensures InRange(r.1.attributes) ==> 86.0 <= r.1.moodStability <= 95.0 && 10 <= r.1.focusScore <= 100
    ensures (r.1.moodStability - 85.0) / 10.0 == r.1.attributes.spirit
  {
    var (s1, a) := GetActiveAttributes(s, now);
    (s1, UserAnalytics(a, 85.0 + a.spirit * 10.0, Numbers.Round(a.mind * 100.0), 12))
  }
}
