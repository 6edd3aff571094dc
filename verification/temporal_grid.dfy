/** The full-screen time grids: the year since the last birthday (one cell
    per day), the months of the calendar year and the hours of today. Each
    lights the cells gone, marks the current one and shows the share gone.
    The clock reading is a calendar date and an hour; the birth date comes
    from the settings as an ISO `YYYY-MM-DD` string. */
module TemporalGrid {
  import opened Wrappers
  import Types
  import Text
  import Calendar
  import GridCells

  datatype GridKind = YearlyKind | MonthlyKind | TodayKind

  /** The moment the grid is opened: a valid date and an hour 0..23. */
  datatype Moment = Moment(year: int, month: int, day: int, hour: int)

  predicate ValidMoment(t: Moment) {
    Calendar.ValidDate(t.year, t.month, t.day) && 0 <= t.hour < 24
  }

  /** The cells' labels and the count of cells gone. */
  datatype GridView = GridView(labels: seq<string>, passed: int)

  /** A view whose count falls inside its row has one current cell. */
  predicate OneCurrent(v: GridView) {
    0 <= v.passed < |v.labels|
  }

  // ---- Birth dates ----

  /** Used when the settings hold no birth date. */
  const DefaultBirthDate: string := "1999-01-01"

  /** The birth date from the settings, or the default when it is empty. */
  function BirthDateOrDefault(birthDate: string): (r: string)
    ensures birthDate != [] ==> r == birthDate
    ensures birthDate == [] ==> r == DefaultBirthDate
  {
    if birthDate == [] then DefaultBirthDate else birthDate
  }

  /** The ISO form of a date: year, two-digit month, two-digit day. */
  function FormatIsoDate(y: nat, m: nat, d: nat): string {
    Text.NatToString(y) + "-" + Text.PadTwo(m) + "-" + Text.PadTwo(d)
  }

  /** Reads `YYYY-MM-DD`: three dash-separated digit groups forming a
      valid date; anything else is not a date. */
  function ParseIsoDate(s: string): (r: Option<(int, int, int)>)
    ensures r.Some? ==> Calendar.ValidDate(r.value.0, r.value.1, r.value.2)
    ensures r.Some? ==> |Text.Split(s, '-')| == 3
  {
    var parts := Text.Split(s, '-');
    if |parts| == 3 && Text.AllDigits(parts[0]) && Text.AllDigits(parts[1]) && Text.AllDigits(parts[2])
       && parts[0] != [] && parts[1] != [] && parts[2] != [] then
      var y, m, d := Text.ParseNat(parts[0]), Text.ParseNat(parts[1]), Text.ParseNat(parts[2]);
      if Calendar.ValidDate(y, m, d) then Some((y, m, d)) else None
    else None
  }

  lemma NoDash(s: string)
    requires Text.AllDigits(s)
    ensures '-' !in s
  {
  }

  /** Three digit groups joined by dashes split back into the groups. */
  lemma SplitDate(ys: string, ms: string, ds: string)
    requires Text.AllDigits(ys) && Text.AllDigits(ms) && Text.AllDigits(ds)
    ensures Text.Split(ys + "-" + ms + "-" + ds, '-') == [ys, ms, ds]
  {
    NoDash(ys);
    NoDash(ms);
    NoDash(ds);
    var tail := ms + ['-'] + ds;
    assert ys + "-" + ms + "-" + ds == ys + ['-'] + tail;
    Text.SplitAfter(ms, '-', ds);
    assert Text.Split(ds, '-') == [ds];
    assert Text.Split(tail, '-') == [ms, ds];
    Text.SplitAfter(ys, '-', tail);
  }

  /** The parse of three non-empty digit groups that form a valid date. */
  lemma ParseGroups(s: string, ys: string, ms: string, ds: string)
    requires Text.AllDigits(ys) && Text.AllDigits(ms) && Text.AllDigits(ds)
    requires ys != [] && ms != [] && ds != []
    requires Text.Split(s, '-') == [ys, ms, ds]
    requires Calendar.ValidDate(Text.ParseNat(ys), Text.ParseNat(ms), Text.ParseNat(ds))
    ensures ParseIsoDate(s) == Some((Text.ParseNat(ys) as int, Text.ParseNat(ms) as int, Text.ParseNat(ds) as int))
  {
  }

  /** Formatting a valid date and reading it back gives the date. */
  lemma ParseFormatIsoDate(y: nat, m: nat, d: nat)
    requires Calendar.ValidDate(y, m, d)
    ensures ParseIsoDate(FormatIsoDate(y, m, d)) == Some((y as int, m as int, d as int))
  {
    var ys, ms, ds := Text.NatToString(y), Text.PadTwo(m), Text.PadTwo(d);
    SplitDate(ys, ms, ds);
    Text.ParseNatToString(y);
    Text.ParsePadTwo(m);
    Text.ParsePadTwo(d);
    ParseGroups(FormatIsoDate(y, m, d), ys, ms, ds);
  }

  /** The default birth date is a date: January 1, 1999. */
  lemma DefaultBirthDateParses()
    ensures ParseIsoDate(DefaultBirthDate) == Some((1999, 1, 1))
  {
    assert Text.NatToString(1999) == "1999";
    assert Text.PadTwo(1) == "01";
    assert FormatIsoDate(1999, 1, 1) == DefaultBirthDate;
    ParseFormatIsoDate(1999, 1, 1);
  }

  // ---- The yearly grid ----

  /** The year of the last birthday on or before today: this year's when
      it has come, else last year's. A birthday starts at midnight, so it
      is after the moment exactly when its date is after today. */
  function LastBirthdayYear(t: Moment, bm: int, bd: int): (y: int)
    requires ValidMoment(t) && Calendar.InYearDate(bm, bd)
    ensures y == t.year || y == t.year - 1
    ensures Calendar.DayNumber(y, bm, bd) <= Calendar.DayNumber(t.year, t.month, t.day)
    ensures Calendar.DayNumber(t.year, t.month, t.day) < Calendar.DayNumber(y + 1, bm, bd)
  {
    Calendar.ValidDateInYear(t.year, t.month, t.day);
    Calendar.WithinYear(t.year, t.month, t.day);
    Calendar.WithinYear(t.year + 1, bm, bd);
    Calendar.WithinYear(t.year - 1, bm, bd);
    assert t.year - 1 + 1 == t.year;
    var today := Calendar.DayNumber(t.year, t.month, t.day);
    if Calendar.DayNumber(t.year, bm, bd) > today then t.year - 1 else t.year
  }

  /** The year since the last birthday: one blank cell per day up to the
      next birthday, and the whole days gone since the last one. */
  function BirthdayYear(t: Moment, bm: int, bd: int): (v: GridView)
    requires ValidMoment(t) && Calendar.InYearDate(bm, bd)
    ensures |v.labels| == 365 || |v.labels| == 366
    ensures OneCurrent(v)
    ensures forall i :: 0 <= i < |v.labels| ==> v.labels[i] == ""
    ensures v.passed == Calendar.DayNumber(t.year, t.month, t.day)
                        - Calendar.DayNumber(LastBirthdayYear(t, bm, bd), bm, bd)
    ensures |v.labels| == Calendar.DayNumber(LastBirthdayYear(t, bm, bd) + 1, bm, bd)
                          - Calendar.DayNumber(LastBirthdayYear(t, bm, bd), bm, bd)
  {
    var last := LastBirthdayYear(t, bm, bd);
    var start := Calendar.DayNumber(last, bm, bd);
    Calendar.AnniversaryStep(last, bm, bd);
    var total := Calendar.DayNumber(last + 1, bm, bd) - start;
    GridView(seq(total, _ => ""), Calendar.DayNumber(t.year, t.month, t.day) - start)
  }

  /** On the birthday itself no day has gone and the first cell is
      current. */
  lemma BirthdayStartsYear(t: Moment)
    requires ValidMoment(t) && Calendar.InYearDate(t.month, t.day)
    ensures BirthdayYear(t, t.month, t.day).passed == 0
  {
  }

  // ---- The monthly and daily grids ----

  const MonthNames: seq<string> := ["Jan", "Feb", "Mar", "Apr", "May", "Jun", "Jul", "Aug", "Sep", "Oct", "Nov", "Dec"]

  /** The label of hour cell `i`: the hour it ends at, `${i + 1}h`. */
  function HourLabel(i: nat): (r: string)
    ensures |r| >= 2 && r[|r| - 1] == 'h'
  {
    Text.NatToString(i + 1) + "h"
  }

  /** An hour label reads back as the hour it ends at. */
  lemma HourLabelReadsBack(i: nat)
    ensures var r := HourLabel(i);
            Text.AllDigits(r[..|r| - 1]) && Text.ParseNat(r[..|r| - 1]) == i + 1
  {
    var r := HourLabel(i);
    assert r[..|r| - 1] == Text.NatToString(i + 1);
    Text.ParseNatToString(i + 1);
  }

  /** The months of the year, those before the current month gone. */
  function MonthlyGrid(t: Moment): (v: GridView)
    requires ValidMoment(t)
    ensures |v.labels| == 12 && OneCurrent(v)
    ensures v.labels[v.passed] == MonthNames[t.month - 1]
  {
    GridView(MonthNames, t.month - 1)
  }

  /** The hours of today, those before the current hour gone. */
  function TodayGrid(t: Moment): (v: GridView)
    requires ValidMoment(t)
    ensures |v.labels| == 24 && OneCurrent(v)
    ensures forall i :: 0 <= i < 24 ==> v.labels[i] == HourLabel(i)
    ensures v.passed == t.hour
  {
    GridView(seq(24, i requires 0 <= i => HourLabel(i)), t.hour)
  }

  /** The yearly grid for the birth date in the settings, absent when
      that is not a date (the source then draws no cells and shows a
      percentage that is not a number). */
  function YearlyView(st: Types.UserSettings, t: Moment): (r: Option<GridView>)
    requires ValidMoment(t)
    ensures r.Some? ==> OneCurrent(r.value) && (|r.value.labels| == 365 || |r.value.labels| == 366)
    ensures r.Some? <==> ParseIsoDate(BirthDateOrDefault(st.birthDate)).Some?
    ensures st.birthDate == [] ==> r == Some(BirthdayYear(t, 1, 1))
  {
    var birth := ParseIsoDate(BirthDateOrDefault(st.birthDate));
    DefaultBirthDateParses();
    if birth.Some? then
      var (y, m, d) := birth.value;
      Calendar.ValidDateInYear(y, m, d);
      Some(BirthdayYear(t, m, d))
    else None
  }

  /** The grid of the requested kind. */
  function View(kind: GridKind, st: Types.UserSettings, t: Moment): (r: Option<GridView>)
    requires ValidMoment(t)
    ensures r.Some? ==> OneCurrent(r.value)
    ensures kind != YearlyKind ==> r.Some?
    ensures kind == YearlyKind && st.birthDate == [] ==> r.Some?
  {
    match kind
    case YearlyKind => YearlyView(st, t)
    case MonthlyKind => Some(MonthlyGrid(t))
    case TodayKind => Some(TodayGrid(t))
  }

  /** Every grid shown has exactly one current cell, the cells before it
      lit, and a footer percentage between 0 and 100. */
  lemma ShownGridHasOneCurrentCell(kind: GridKind, st: Types.UserSettings, t: Moment)
    requires ValidMoment(t) && View(kind, st, t).Some?
    ensures var v := View(kind, st, t).value;
            GridCells.CountClass(|v.labels|, v.passed, GridCells.Current) == 1
            && GridCells.CountClass(|v.labels|, v.passed, GridCells.Passed) == v.passed
            && 0 <= GridCells.Progress(v.passed, |v.labels|) <= 100
  {
    var v := View(kind, st, t).value;
    GridCells.CurrentCells(|v.labels|, v.passed);
    GridCells.PassedCells(|v.labels|, v.passed);
  }
}
