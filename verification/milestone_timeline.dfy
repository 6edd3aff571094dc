/** The milestone timeline (MilestoneTimeline.tsx): the split into the
    active trajectory and the missed list, the grouping of active
    milestones by planned age, the counters shown on top, creating a
    milestone, and the selection, docking and failing interactions. */
module MilestoneTimeline {
  import opened Wrappers
  import opened Types
  import opened MilestoneOrder
  import Text
  import Seqs
  import Backend
  import App
  import MilestoneCard

  /** Milestones on the active trajectory: everything not missed. */
  function ActiveMilestones(ms: seq<Milestone>): (r: seq<Milestone>)
    ensures |r| <= |ms|
    ensures forall i :: 0 <= i < |r| ==> r[i].status != Missed && r[i] in ms
    ensures forall i :: 0 <= i < |ms| && ms[i].status != Missed ==> ms[i] in r
  {
    if |ms| == 0 then []
    else ActiveMilestones(ms[..|ms| - 1]) + (if ms[|ms| - 1].status != Missed then [ms[|ms| - 1]] else [])
  }

  /** The missed milestones, in list order. */
  function MissedOnes(ms: seq<Milestone>): (r: seq<Milestone>)
    ensures |r| <= |ms|
    ensures forall i :: 0 <= i < |r| ==> r[i].status == Missed && r[i] in ms
    ensures forall i :: 0 <= i < |ms| && ms[i].status == Missed ==> ms[i] in r
  {
    if |ms| == 0 then []
    else MissedOnes(ms[..|ms| - 1]) + (if ms[|ms| - 1].status == Missed then [ms[|ms| - 1]] else [])
  }

  /** The last milestone goes to exactly one of the two lists. */
  lemma SplitLast(ms: seq<Milestone>)
    requires |ms| > 0
    ensures var init, last := ms[..|ms| - 1], ms[|ms| - 1];
            multiset(ActiveMilestones(ms)) + multiset(MissedOnes(ms))
            == multiset(ActiveMilestones(init)) + multiset(MissedOnes(init)) + multiset{last}
    ensures var init := ms[..|ms| - 1];
            |ActiveMilestones(ms)| + |MissedOnes(ms)| == |ActiveMilestones(init)| + |MissedOnes(init)| + 1
    ensures multiset(ms) == multiset(ms[..|ms| - 1]) + multiset{ms[|ms| - 1]}
  {
    var init, last := ms[..|ms| - 1], ms[|ms| - 1];
    assert ms == init + [last];
    if last.status == Missed {
      assert MissedOnes(ms) == MissedOnes(init) + [last];
    } else {
      assert ActiveMilestones(ms) == ActiveMilestones(init) + [last];
    }
  }

  /** Every milestone is in exactly one of the two lists. */
  lemma {:induction false} SplitIsPartition(ms: seq<Milestone>)
    ensures multiset(ActiveMilestones(ms)) + multiset(MissedOnes(ms)) == multiset(ms)
    ensures |ActiveMilestones(ms)| + |MissedOnes(ms)| == |ms|
  {
    if |ms| > 0 {
      var init := ms[..|ms| - 1];
      SplitIsPartition(init);
      SplitLast(ms);
    }
  }

  /** The "lost signals" list: the missed milestones by ascending planned
      age, ties kept in list order. */
  function MissedMilestones(ms: seq<Milestone>): (r: seq<Milestone>)
    ensures multiset(r) == multiset(MissedOnes(ms))
    ensures SortedByAge(r)
    ensures forall i :: 0 <= i < |r| ==> r[i].status == Missed
  {
    var r := SortByAge(MissedOnes(ms));
    assert forall i :: 0 <= i < |r| ==> r[i] in multiset(MissedOnes(ms));
    r
  }

  /** One heading of the trajectory: a planned age and its milestones. */
  datatype AgeGroup = AgeGroup(age: int, milestones: seq<Milestone>)

  function Flatten(gs: seq<AgeGroup>): seq<Milestone> {
    if |gs| == 0 then [] else gs[0].milestones + Flatten(gs[1..])
  }

  /** Anything in the concatenation is in one of the groups. */
  lemma {:induction false} InFlatten(gs: seq<AgeGroup>, m: Milestone)
    requires m in Flatten(gs)
    ensures exists i :: 0 <= i < |gs| && m in gs[i].milestones
  {
    if m !in gs[0].milestones {
      InFlatten(gs[1..], m);
      var i :| 0 <= i < |gs[1..]| && m in gs[1..][i].milestones;
      assert m in gs[i + 1].milestones;
    }
  }

  /** The number of leading milestones of planned age `v`. */
  function RunLength(t: seq<Milestone>, v: int): (k: nat)
    ensures k <= |t|
    ensures forall i :: 0 <= i < k ==> Age(t[i]) == v
    ensures k < |t| ==> Age(t[k]) != v
  {
    if |t| == 0 || Age(t[0]) != v then 0 else 1 + RunLength(t[1..], v)
  }

  /** Cuts a list sorted by age into maximal runs of equal age. */
  function Runs(t: seq<Milestone>): (r: seq<AgeGroup>)
    requires SortedByAge(t)
    ensures Flatten(r) == t
    ensures forall i :: 0 <= i < |r| ==> |r[i].milestones| > 0
    ensures forall i, j :: 0 <= i < |r| && 0 <= j < |r[i].milestones| ==> Age(r[i].milestones[j]) == r[i].age
    ensures forall i :: 0 <= i < |r| ==> |t| > 0 && Age(t[0]) <= r[i].age
    ensures forall i, j :: 0 <= i < j < |r| ==> r[i].age < r[j].age
    decreases |t|
  {
    if |t| == 0 then []
    else
      var v := Age(t[0]);
      var k := RunLength(t, v);
      SortedSuffix(t, k);
      var tail := Runs(t[k..]);
      RunsStep(t, k, tail);
      [AgeGroup(v, t[..k])] + tail
  }

  /** The first run put in front of the runs of the rest keeps every
      property `Runs` promises. */
  lemma RunsStep(t: seq<Milestone>, k: nat, tail: seq<AgeGroup>)
    requires SortedByAge(t) && |t| > 0 && k == RunLength(t, Age(t[0]))
    requires Flatten(tail) == t[k..]
    requires forall i :: 0 <= i < |tail| ==> |tail[i].milestones| > 0
    requires forall i, j :: 0 <= i < |tail| && 0 <= j < |tail[i].milestones| ==> Age(tail[i].milestones[j]) == tail[i].age
    requires forall i :: 0 <= i < |tail| ==> |t[k..]| > 0 && Age(t[k..][0]) <= tail[i].age
    requires forall i, j :: 0 <= i < j < |tail| ==> tail[i].age < tail[j].age
    ensures var r := [AgeGroup(Age(t[0]), t[..k])] + tail;
            Flatten(r) == t
            && (forall i :: 0 <= i < |r| ==> |r[i].milestones| > 0)
            && (forall i, j :: 0 <= i < |r| && 0 <= j < |r[i].milestones| ==> Age(r[i].milestones[j]) == r[i].age)
            && (forall i :: 0 <= i < |r| ==> Age(t[0]) <= r[i].age)
            && (forall i, j :: 0 <= i < j < |r| ==> r[i].age < r[j].age)
  {
    var v := Age(t[0]);
    var r := [AgeGroup(v, t[..k])] + tail;
    assert r[1..] == tail;
    assert t[..k] + t[k..] == t;
    if |t[k..]| > 0 {
      assert t[k..][0] == t[k];
      assert v < Age(t[k]);
    }
  }

  lemma {:induction false} FilterAgeAll(t: seq<Milestone>, v: int)
    requires forall i :: 0 <= i < |t| ==> Age(t[i]) == v
    ensures FilterAge(t, v) == t
  {
    if |t| > 0 {
      FilterAgeAll(t[1..], v);
      assert t == [t[0]] + t[1..];
      FilterAgeAppend([t[0]], t[1..], v);
      assert FilterAge([t[0]], v) == [t[0]] by {
        assert [t[0]][1..] == [];
      }
    }
  }

  /** The first run and the rest of a sorted list. */
  lemma RunsUnfold(t: seq<Milestone>)
    requires SortedByAge(t) && |t| > 0
    ensures var k := RunLength(t, Age(t[0]));
            SortedByAge(t[k..]) && t == t[..k] + t[k..]
            && Runs(t) == [AgeGroup(Age(t[0]), t[..k])] + Runs(t[k..])
  {
    SortedSuffix(t, RunLength(t, Age(t[0])));
  }

  lemma SortedSuffix(t: seq<Milestone>, k: nat)
    requires SortedByAge(t) && k <= |t|
    ensures SortedByAge(t[k..])
  {
    var rest := t[k..];
    forall a, b | 0 <= a < b < |rest| ensures Age(rest[a]) <= Age(rest[b]) {
      assert rest[a] == t[k + a] && rest[b] == t[k + b];
    }
  }

  /** After the first run every age is greater than the first one. */
  lemma RunRestIsOlder(t: seq<Milestone>, j: nat)
    requires SortedByAge(t) && |t| > 0
    requires j < |t[RunLength(t, Age(t[0]))..]|
    ensures Age(t[0]) < Age(t[RunLength(t, Age(t[0]))..][j])
  {
    var k := RunLength(t, Age(t[0]));
    assert Age(t[0]) <= Age(t[k]) <= Age(t[k + j]);
  }

  /** Each run holds exactly the milestones of its age, in order. */
  lemma {:induction false} RunsAreFilters(t: seq<Milestone>, i: nat)
    requires SortedByAge(t) && i < |Runs(t)|
    ensures Runs(t)[i].milestones == FilterAge(t, Runs(t)[i].age)
    decreases |t|
  {
    RunsUnfold(t);
    var v := Age(t[0]);
    var k := RunLength(t, v);
    var rest := t[k..];
    var w := Runs(t)[i].age;
    FilterAgeAppend(t[..k], rest, w);
    if i == 0 {
      FilterAgeAll(t[..k], v);
      forall j | 0 <= j < |rest| ensures Age(rest[j]) != v {
        RunRestIsOlder(t, j);
      }
      FilterAgeNone(rest, v);
    } else {
      RunsAreFilters(rest, i - 1);
      FilterAgeNone(t[..k], w);
    }
  }

  /** `ageGroups`: the active milestones grouped by planned age (missing
      counts as 0), groups in ascending age. */
  function AgeGroups(ms: seq<Milestone>): (r: seq<AgeGroup>)
    ensures forall i, j :: 0 <= i < j < |r| ==> r[i].age < r[j].age
    ensures forall i :: 0 <= i < |r| ==> |r[i].milestones| > 0
    ensures forall i, j :: 0 <= i < |r| && 0 <= j < |r[i].milestones| ==> Age(r[i].milestones[j]) == r[i].age
    ensures multiset(Flatten(r)) == multiset(ActiveMilestones(ms))
  {
    Runs(SortByAge(ActiveMilestones(ms)))
  }

  /** Each group lists the active milestones of its age in their original
      order, and every active milestone sits in the group of its age. */
  lemma AgeGroupsAreExact(ms: seq<Milestone>, i: nat)
    requires i < |AgeGroups(ms)|
    ensures AgeGroups(ms)[i].milestones == FilterAge(ActiveMilestones(ms), AgeGroups(ms)[i].age)
  {
    var sorted := SortByAge(ActiveMilestones(ms));
    RunsAreFilters(sorted, i);
    SortByAgeStable(ActiveMilestones(ms), AgeGroups(ms)[i].age);
  }

  lemma AgeGroupsCover(ms: seq<Milestone>, m: Milestone)
    requires m in ActiveMilestones(ms)
    ensures exists i :: 0 <= i < |AgeGroups(ms)| && AgeGroups(ms)[i].age == Age(m) && m in AgeGroups(ms)[i].milestones
  {
    var r := AgeGroups(ms);
    assert m in multiset(Flatten(r));
    InFlatten(r, m);
    var i :| 0 <= i < |r| && m in r[i].milestones;
    var j :| 0 <= j < |r[i].milestones| && r[i].milestones[j] == m;
    assert Age(r[i].milestones[j]) == r[i].age;
  }

  /** Pending and long-term milestones. */
  function CountRemaining(ms: seq<Milestone>): (n: nat)
    ensures n <= |ms|
  {
    if |ms| == 0 then 0
    else CountRemaining(ms[..|ms| - 1]) + (if App.IsOpen(ms[|ms| - 1]) then 1 else 0)
  }

  /** Neither completed nor missed, and planned below the current age. */
  predicate Overdue(m: Milestone, currentAge: int) {
    m.status != Completed && m.status != Missed && Age(m) < currentAge
  }

  function CountOverdue(ms: seq<Milestone>, currentAge: int): (n: nat)
    ensures n <= |ms|
  {
    if |ms| == 0 then 0
    else CountOverdue(ms[..|ms| - 1], currentAge) + (if Overdue(ms[|ms| - 1], currentAge) then 1 else 0)
  }

  /** Cards in a list that the card view highlights as overdue. */
  function CountOverdueCards(ms: seq<Milestone>, currentAge: int): (n: nat)
    ensures n <= |ms|
  {
    if |ms| == 0 then 0
    else CountOverdueCards(ms[..|ms| - 1], currentAge)
         + (if MilestoneCard.IsOverdue(ms[|ms| - 1], Some(currentAge)) then 1 else 0)
  }

  datatype Stats = Stats(completed: nat, remaining: nat, overdue: nat)

  /** Completed, remaining and missed milestones account for every one,
      and only remaining ones can be overdue. */
  lemma {:induction false} StatsPartition(ms: seq<Milestone>, currentAge: int)
    ensures Backend.CountCompleted(ms) + CountRemaining(ms) + |MissedOnes(ms)| == |ms|
    ensures CountOverdue(ms, currentAge) <= CountRemaining(ms)
  {
    if |ms| > 0 {
      StatsPartition(ms[..|ms| - 1], currentAge);
    }
  }

  /** `stats`: the counters above the timeline. */
  function ComputeStats(ms: seq<Milestone>, currentAge: int): (r: Stats)
    ensures r.completed + r.remaining + |MissedOnes(ms)| == |ms|
    ensures r.overdue <= r.remaining
    ensures r.completed == Backend.CountCompleted(ms)
    ensures r.remaining == CountRemaining(ms)
    ensures r.overdue == CountOverdue(ms, currentAge)
  {
    StatsPartition(ms, currentAge);
    Stats(Backend.CountCompleted(ms), CountRemaining(ms), CountOverdue(ms, currentAge))
  }

  /** The overdue counter is the number of active cards the card view
      marks overdue: the card rule differs only on missed milestones. */
  lemma {:induction false} OverdueCounterMatchesCards(ms: seq<Milestone>, currentAge: int)
    ensures CountOverdue(ms, currentAge) == CountOverdueCards(ActiveMilestones(ms), currentAge)
  {
    if |ms| > 0 {
      var init := ms[..|ms| - 1];
      var last := ms[|ms| - 1];
      OverdueCounterMatchesCards(init, currentAge);
      if last.status != Missed {
        var a := ActiveMilestones(init) + [last];
        assert ActiveMilestones(ms) == a;
        assert a[..|a| - 1] == ActiveMilestones(init);
        assert Overdue(last, currentAge) == MilestoneCard.IsOverdue(last, Some(currentAge));
      } else {
        assert ActiveMilestones(ms) == ActiveMilestones(init);
        assert !Overdue(last, currentAge);
      }
    }
  }

  /** The longest title the creation form accepts. */
  const MaxTitleLength: nat := 40

  /** The longest prefix of `s` that fits in `budget` UTF-16 code units. */
  function FitUtf16(s: string, budget: nat): (r: string)
    ensures Text.Utf16Length(r) <= budget && |r| <= |s| && r == s[..|r|]
    ensures Text.Utf16Length(s) <= budget ==> r == s
    ensures |r| < |s| ==> Text.Utf16Length(s[..|r| + 1]) > budget
  {
    if |s| == 0 then []
    else
      var w := Text.Utf16Units(s[0]);
      if w > budget then
        assert s[..1][1..] == [];
        []
      else
        var rest := FitUtf16(s[1..], budget - w);
        var r := [s[0]] + rest;
        assert r[1..] == rest;
        assert r == s[..|r|];
        assert |r| < |s| ==> s[..|r| + 1][1..] == s[1..][..|rest| + 1];
        r
  }

  /** The title field holds at most 40 UTF-16 code units (`maxLength`
      counts code units): typing stops at the last character that fits. */
  function TitleInput(typed: string): (r: string)
    ensures Text.Utf16Length(r) <= MaxTitleLength && |r| <= MaxTitleLength
    ensures |r| <= |typed| && r == typed[..|r|]
    ensures Text.Utf16Length(typed) <= MaxTitleLength ==> r == typed
    ensures |r| < |typed| ==> Text.Utf16Length(typed[..|r| + 1]) > MaxTitleLength
  {
    FitUtf16(typed, MaxTitleLength)
  }

  /** `handleSave`: nothing for a blank title; otherwise a pending
      milestone with the trimmed title, the chosen category and age, and
      the clock reading as id. */
  function HandleSave(title: string, category: Category, estimatedAge: int, id: string): (r: Option<Milestone>)
    ensures r.None? <==> Text.IsBlank(title)
    ensures r.Some? ==> r.value.status == Pending && r.value.title == Text.Trim(title)
                        && r.value.id == id && r.value.category == Some(category)
                        && r.value.estimatedAge == Some(estimatedAge)
    ensures r.Some? ==> |r.value.title| > 0 && |r.value.title| <= |title|
    ensures r.Some? ==> Text.Utf16Length(r.value.title) <= Text.Utf16Length(title)
  {
    var t := Text.Trim(title);
    Text.TrimUtf16Length(title);
    if |t| == 0 then None
    else Some(Milestone(id, t, None, Pending, Some(category), None, None, None, None, Some(estimatedAge)))
  }

  /** Whatever is typed, a saved milestone's title fits the limit. */
  lemma SavedTitleFits(typed: string, category: Category, estimatedAge: int, id: string)
    ensures var r := HandleSave(TitleInput(typed), category, estimatedAge, id);
            r.Some? ==> Text.Utf16Length(r.value.title) <= MaxTitleLength && |r.value.title| <= MaxTitleLength
  {
  }

  /** The interaction state: the selected card, the card being docked and
      the feedback overlay. */
  datatype Feedback = SuccessFeedback | RegretFeedback
  datatype TimelineState = TimelineState(selected: Option<string>, docking: Option<string>, feedback: Option<Feedback>)

  /** A docking id is "set" when it is a non-empty string. */
  predicate Docking(st: TimelineState) {
    st.docking.Some? && st.docking.value != ""
  }

  /** `toggleSelection`: ignored while docking; otherwise selects the
      card, or deselects it when it was the selected one. */
  function ToggleSelection(st: TimelineState, id: string): (r: TimelineState)
    ensures Docking(st) ==> r == st
    ensures !Docking(st) ==> r == st.(selected := r.selected)
    ensures !Docking(st) ==> (r.selected == Some(id) <==> st.selected != Some(id))
    ensures !Docking(st) && st.selected == Some(id) ==> r.selected.None?
  {
    if Docking(st) then st
    else st.(selected := if st.selected == Some(id) then None else Some(id))
  }

  /** Selecting the same card twice is a round trip. */
  lemma ToggleSelectionTwice(st: TimelineState, id: string)
    requires st.selected.None? || st.selected == Some(id)
    ensures ToggleSelection(ToggleSelection(st, id), id) == st
  {
  }

  /** `startDockingSequence`: the card starts docking. */
  function StartDocking(st: TimelineState, id: string): (r: TimelineState)
    ensures r.docking == Some(id) && r.selected == st.selected && r.feedback == st.feedback
  {
    st.(docking := Some(id))
  }

  /** The end of the docking delay: the milestone is completed in the
      given year, success is shown, and docking and selection clear. */
  function FinishDocking(st: TimelineState, ms: seq<Milestone>, id: string, year: string)
    : (r: (TimelineState, seq<Milestone>))
    ensures r.0 == TimelineState(None, None, Some(SuccessFeedback))
    ensures r.1 == App.UpdateMilestone(ms, id, App.MilestonePatch(Some(Completed), Some(year)))
    ensures forall i :: 0 <= i < |ms| && ms[i].id == id ==> r.1[i].status == Completed && r.1[i].date == Some(year)
  {
    (TimelineState(None, None, Some(SuccessFeedback)),
     App.UpdateMilestone(ms, id, App.MilestonePatch(Some(Completed), Some(year))))
  }

  /** `handleFail`: the milestone is marked missed and regret is shown;
      the selection clears. */
  function HandleFail(st: TimelineState, ms: seq<Milestone>, id: string): (r: (TimelineState, seq<Milestone>))
    ensures r.0 == st.(selected := None, feedback := Some(RegretFeedback))
    ensures r.1 == App.UpdateMilestone(ms, id, App.MilestonePatch(Some(Missed), None))
    ensures forall i :: 0 <= i < |ms| && ms[i].id == id ==> r.1[i].status == Missed && r.1[i].date == ms[i].date
  {
    (st.(selected := None, feedback := Some(RegretFeedback)),
     App.UpdateMilestone(ms, id, App.MilestonePatch(Some(Missed), None)))
  }

  /** Docking a not-yet-completed milestone raises the completed counter;
      failing one moves it from the trajectory to the missed list. */
  lemma DockAndFailMoveMilestones(st: TimelineState, ms: seq<Milestone>, id: string, year: string, k: nat)
    requires k < |ms| && ms[k].id == id && ms[k].status != Completed
    ensures Backend.CountCompleted(FinishDocking(st, ms, id, year).1) > Backend.CountCompleted(ms)
    ensures var failed := HandleFail(st, ms, id).1;
            failed[k] in MissedMilestones(failed) && failed[k] !in ActiveMilestones(failed)
  {
    App.CompletingRaisesCount(ms, id, App.MilestonePatch(Some(Completed), Some(year)));
    var failed := HandleFail(st, ms, id).1;
    assert failed[k] in MissedOnes(failed);
    assert failed[k] in multiset(MissedMilestones(failed));
  }
}
