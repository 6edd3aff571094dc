/** The journal constellation on the self screen (SelfLogsTab.tsx): the
    newest 100 entries grouped by month name, at most 8 entries per
    month and at most 5 months. */
module SelfLogsTab {
  import opened Wrappers
  import opened Types
  import Text
  import Seqs

  const ConsideredLogs: nat := 100
  const EntriesPerGroup: nat := 8
  const MaxGroups: nat := 5

  /** The group key: the first space-separated word of the date with the
      first comma removed, upper-cased. `split` always yields a first
      part, so the "RECENT" fallback of the source is never taken. */
  function MonthKey(date: string): string {
    Text.ToUpper(Text.Split(Text.RemoveFirst(date, ','), ' ')[0])
  }

  /** The key carries the month only: the same month of different years
      shares one group. */
  lemma MonthKeyIgnoresYear(mon: string, day: string, year: string)
    requires ' ' !in mon && ',' !in mon && ',' !in day
    ensures MonthKey((mon + [' '] + day) + [','] + ([' '] + year)) == Text.ToUpper(mon)
  {
    var rest := day + [' '] + year;
    DropComma(mon, day, year);
    FirstWord(mon, rest);
  }

  /** Dropping the comma after the day joins the day and the year. */
  lemma DropComma(mon: string, day: string, year: string)
    requires ',' !in mon && ',' !in day
    ensures Text.RemoveFirst((mon + [' '] + day) + [','] + ([' '] + year), ',') == mon + [' '] + (day + [' '] + year)
  {
    var a := mon + [' '] + day;
    assert ',' !in a;
    Text.RemoveFirstAfter(a, ',', [' '] + year);
    assert a + ([' '] + year) == mon + [' '] + (day + [' '] + year);
  }

  /** The first space-separated word of a text that starts with a word. */
  lemma FirstWord(mon: string, rest: string)
    requires ' ' !in mon
    ensures Text.Split(mon + [' '] + rest, ' ')[0] == mon
  {
    Text.SplitAfter(mon, ' ', rest);
  }

  datatype MonthGroup = MonthGroup(month: string, entries: seq<LogEntry>)

  /** An entry with its group key computed. */
  datatype Keyed = Keyed(key: string, log: LogEntry)

  function WithKeys(logs: seq<LogEntry>): (r: seq<Keyed>)
    ensures |r| == |logs|
    ensures forall i :: 0 <= i < |logs| ==> r[i] == Keyed(MonthKey(logs[i].date), logs[i])
  {
    seq(|logs|, i requires 0 <= i < |logs| => Keyed(MonthKey(logs[i].date), logs[i]))
  }

  /** The entries of one month, in order. */
  function OfMonth(ks: seq<Keyed>, month: string): (r: seq<LogEntry>)
    ensures |r| <= |ks|
  {
    if |ks| == 0 then []
    else
      var last := ks[|ks| - 1];
      OfMonth(ks[..|ks| - 1], month) + (if last.key == month then [last.log] else [])
  }

  /** The months in order of first appearance. */
  function MonthsInOrder(ks: seq<Keyed>): (r: seq<string>)
    ensures forall i, j :: 0 <= i < j < |r| ==> r[i] != r[j]
    ensures forall i :: 0 <= i < |r| ==> |OfMonth(ks, r[i])| > 0
    ensures forall m :: m !in r ==> OfMonth(ks, m) == []
  {
    if |ks| == 0 then []
    else
      var k := ks[|ks| - 1].key;
      var before := MonthsInOrder(ks[..|ks| - 1]);
      if k in before then before else before + [k]
  }

  /** The groups the view keeps, as a specification: the first five
      months of the newest 100 entries, each with its first eight
      entries. */
  function Expected(logs: seq<LogEntry>): seq<MonthGroup> {
    var ks := WithKeys(Seqs.Take(logs, ConsideredLogs));
    var months := Seqs.Take(MonthsInOrder(ks), MaxGroups);
    seq(|months|, i requires 0 <= i < |months| => MonthGroup(months[i], Seqs.Take(OfMonth(ks, months[i]), EntriesPerGroup)))
  }

  function Total(gs: seq<MonthGroup>): nat {
    if |gs| == 0 then 0 else Total(gs[..|gs| - 1]) + |gs[|gs| - 1].entries|
  }

  lemma {:induction false} TotalBound(gs: seq<MonthGroup>)
    requires forall i :: 0 <= i < |gs| ==> |gs[i].entries| <= EntriesPerGroup
    ensures Total(gs) <= EntriesPerGroup * |gs|
  {
    if |gs| > 0 {
      TotalBound(gs[..|gs| - 1]);
    }
  }

  /** The group list built so far matches the months and entries of the
      prefix read so far. */
  predicate Matches(gs: seq<MonthGroup>, ks: seq<Keyed>) {
    |gs| == |MonthsInOrder(ks)|
    && forall j :: 0 <= j < |gs| ==>
         gs[j].month == MonthsInOrder(ks)[j]
         && gs[j].entries == Seqs.Take(OfMonth(ks, gs[j].month), EntriesPerGroup)
  }

  /** Where a month's group sits, if it has one. */
  function FindMonth(gs: seq<MonthGroup>, month: string): (r: Option<nat>)
    ensures r.Some? ==> r.value < |gs| && gs[r.value].month == month
    ensures r.None? ==> forall j :: 0 <= j < |gs| ==> gs[j].month != month
  {
    if |gs| == 0 then None
    else if gs[|gs| - 1].month == month then Some(|gs| - 1)
    else FindMonth(gs[..|gs| - 1], month)
  }

  lemma OfMonthSnoc(ks: seq<Keyed>, x: Keyed, m: string)
    ensures OfMonth(ks + [x], m) == OfMonth(ks, m) + (if x.key == m then [x.log] else [])
  {
    var p := ks + [x];
    assert p[..|p| - 1] == ks;
  }

  lemma MonthsSnoc(ks: seq<Keyed>, x: Keyed)
    ensures MonthsInOrder(ks + [x]) == if x.key in MonthsInOrder(ks) then MonthsInOrder(ks) else MonthsInOrder(ks) + [x.key]
  {
    var p := ks + [x];
    assert p[..|p| - 1] == ks;
  }

  /** An entry of a new month opens a group holding just that entry. */
  lemma StepNewMonth(gs: seq<MonthGroup>, ks: seq<Keyed>, x: Keyed)
    requires Matches(gs, ks)
    requires forall j :: 0 <= j < |gs| ==> gs[j].month != x.key
    ensures Matches(gs + [MonthGroup(x.key, [x.log])], ks + [x])
  {
    var k := x.key;
    var ms := MonthsInOrder(ks);
    assert forall j :: 0 <= j < |ms| ==> ms[j] == gs[j].month;
    assert k !in ms;
    MonthsSnoc(ks, x);
    var ms' := MonthsInOrder(ks + [x]);
    assert ms' == ms + [k];
    var gs' := gs + [MonthGroup(k, [x.log])];
    forall j | 0 <= j < |gs'|
      ensures gs'[j].month == ms'[j]
      ensures gs'[j].entries == Seqs.Take(OfMonth(ks + [x], gs'[j].month), EntriesPerGroup)
    {
      OfMonthSnoc(ks, x, gs'[j].month);
      if j < |gs| {
        assert gs'[j] == gs[j];
      }
    }
  }

  /** An entry of a known month joins its group while there is room. */
  lemma StepKnownMonth(gs: seq<MonthGroup>, ks: seq<Keyed>, x: Keyed, j: nat)
    requires Matches(gs, ks)
    requires j < |gs| && gs[j].month == x.key
    ensures var g := gs[j];
            Matches(gs[j := MonthGroup(g.month, if |g.entries| < EntriesPerGroup then g.entries + [x.log] else g.entries)],
                    ks + [x])
  {
    var ms := MonthsInOrder(ks);
    assert ms[j] == x.key;
    MonthsSnoc(ks, x);
    assert MonthsInOrder(ks + [x]) == ms;
    var g := gs[j];
    var gs' := gs[j := MonthGroup(g.month, if |g.entries| < EntriesPerGroup then g.entries + [x.log] else g.entries)];
    forall i | 0 <= i < |gs'|
      ensures gs'[i].month == ms[i]
      ensures gs'[i].entries == Seqs.Take(OfMonth(ks + [x], gs'[i].month), EntriesPerGroup)
    {
      if i == j {
        GrownGroup(g, ks, x);
      } else {
        assert gs'[i] == gs[i];
        KeptGroup(gs[i], ks, x);
      }
    }
  }

  lemma GrownGroup(g: MonthGroup, ks: seq<Keyed>, x: Keyed)
    requires g.entries == Seqs.Take(OfMonth(ks, x.key), EntriesPerGroup)
    ensures (if |g.entries| < EntriesPerGroup then g.entries + [x.log] else g.entries)
         == Seqs.Take(OfMonth(ks + [x], x.key), EntriesPerGroup)
  {
    OfMonthSnoc(ks, x, x.key);
    TakeSnoc(OfMonth(ks, x.key), x.log, EntriesPerGroup);
  }

  lemma KeptGroup(g: MonthGroup, ks: seq<Keyed>, x: Keyed)
    requires g.month != x.key && g.entries == Seqs.Take(OfMonth(ks, g.month), EntriesPerGroup)
    ensures g.entries == Seqs.Take(OfMonth(ks + [x], g.month), EntriesPerGroup)
  {
    OfMonthSnoc(ks, x, g.month);
  }

  /** Appending to a list keeps its first `n` elements, adding the new
      one only when there was room. */
  lemma TakeSnoc(xs: seq<LogEntry>, x: LogEntry, n: nat)
    ensures Seqs.Take(xs + [x], n) == (if |Seqs.Take(xs, n)| < n then Seqs.Take(xs, n) + [x] else Seqs.Take(xs, n))
  {
  }

  /** One more entry: it joins its month's group while that has room;
      a new month opens a group. */
  function Step(gs: seq<MonthGroup>, x: Keyed): seq<MonthGroup> {
    var idx := FindMonth(gs, x.key);
    if idx.Some? then
      var g := gs[idx.value];
      gs[idx.value := MonthGroup(g.month, if |g.entries| < EntriesPerGroup then g.entries + [x.log] else g.entries)]
    else gs + [MonthGroup(x.key, [x.log])]
  }

  lemma StepKeepsMatch(gs: seq<MonthGroup>, ks: seq<Keyed>, x: Keyed)
    requires Matches(gs, ks)
    ensures Matches(Step(gs, x), ks + [x])
  {
    var idx := FindMonth(gs, x.key);
    if idx.Some? {
      StepKnownMonth(gs, ks, x, idx.value);
    } else {
      StepNewMonth(gs, ks, x);
    }
  }

  /** Keeping the first five groups of the full match is the expected
      result, and it satisfies the view's bounds. */
  lemma FinalGroups(gs: seq<MonthGroup>, logs: seq<LogEntry>)
    requires Matches(gs, WithKeys(Seqs.Take(logs, ConsideredLogs)))
    ensures Seqs.Take(gs, MaxGroups) == Expected(logs)
    ensures forall i :: 0 <= i < |Seqs.Take(gs, MaxGroups)| ==> 0 < |Seqs.Take(gs, MaxGroups)[i].entries| <= EntriesPerGroup
  {
    var ks := WithKeys(Seqs.Take(logs, ConsideredLogs));
    var groups := Seqs.Take(gs, MaxGroups);
    var e := Expected(logs);
    assert |groups| == |e|;
    forall i | 0 <= i < |groups| ensures groups[i] == e[i] && 0 < |groups[i].entries| <= EntriesPerGroup {
      assert groups[i] == gs[i];
      assert |OfMonth(ks, MonthsInOrder(ks)[i])| > 0;
    }
  }

  /** One loop step: the next keyed entry extends the match. */
  lemma BuildStep(gs: seq<MonthGroup>, ks: seq<Keyed>, i: nat)
    requires i < |ks| && Matches(gs, ks[..i])
    ensures Matches(Step(gs, ks[i]), ks[..i + 1])
  {
    assert ks[..i + 1] == ks[..i] + [ks[i]];
    StepKeepsMatch(gs, ks[..i], ks[i]);
  }

  /** The loop over the considered entries. */
  method BuildGroups(processed: seq<LogEntry>) returns (gs: seq<MonthGroup>)
    ensures Matches(gs, WithKeys(processed))
  {
    ghost var ks := WithKeys(processed);
    gs := [];
    var i := 0;
    while i < |processed|
      invariant 0 <= i <= |processed|
      invariant Matches(gs, ks[..i])
    {
      var x := Keyed(MonthKey(processed[i].date), processed[i]);
      assert x == ks[i];
      BuildStep(gs, ks, i);
      gs := Step(gs, x);
      i := i + 1;
    }
    assert ks[..i] == ks;
  }

  /** `totalDisplayedLogs`: the summed group sizes. */
  method SumEntries(groups: seq<MonthGroup>) returns (total: nat)
    ensures total == Total(groups)
  {
    total := 0;
    var j := 0;
    while j < |groups|
      invariant 0 <= j <= |groups|
      invariant total == Total(groups[..j])
    {
      assert groups[..j + 1][..j] == groups[..j];
      total := total + |groups[j].entries|;
      j := j + 1;
    }
    assert groups[..j] == groups;
  }

  /** `monthGroups` and `totalDisplayedLogs`. */
  method MonthGroups(logs: seq<LogEntry>) returns (groups: seq<MonthGroup>, total: nat)
    ensures groups == Expected(logs)
    ensures |groups| <= MaxGroups
    ensures forall i, j :: 0 <= i < j < |groups| ==> groups[i].month != groups[j].month
    ensures forall i :: 0 <= i < |groups| ==> 0 < |groups[i].entries| <= EntriesPerGroup
    ensures total == Total(groups) && total <= MaxGroups * EntriesPerGroup
  {
    var gs := BuildGroups(Seqs.Take(logs, ConsideredLogs));
    groups := Seqs.Take(gs, MaxGroups);
    FinalGroups(gs, logs);
    TotalBound(groups);
    total := SumEntries(groups);
  }

  /** Entries of a month keep their journal order: the group is a
      subsequence of the keyed list filtered by month. */
  lemma {:induction false} OfMonthFromInput(ks: seq<Keyed>, m: string, i: nat)
    requires i < |OfMonth(ks, m)|
    ensures exists j :: 0 <= j < |ks| && ks[j].key == m && ks[j].log == OfMonth(ks, m)[i]
  {
    var init := ks[..|ks| - 1];
    var last := ks[|ks| - 1];
    if i < |OfMonth(init, m)| {
      OfMonthFromInput(init, m, i);
      var j :| 0 <= j < |init| && init[j].key == m && init[j].log == OfMonth(init, m)[i];
      assert ks[j] == init[j];
    } else {
      assert OfMonth(ks, m)[i] == last.log && last.key == m;
    }
  }
}
