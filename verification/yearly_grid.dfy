/** The yearly burn grid: one cell per day of the current year, the days
    gone lit, today's cell white, the rest dark, and the share of the year
    gone in the footer. The clock reading is the calendar date of `now`;
    the time of day and the time-zone correction only decide which date
    that is. */
module YearlyGrid {
  import Calendar
  import GridCells

  /** What the grid shows: the number of cells and the count of days gone. */
  datatype YearView = YearView(totalDays: nat, daysPassed: int)

  /** The view as written: the count of days gone is the whole days since
      the last day of the previous year, which is the 1-based day of the
      year, so today's own cell already counts as gone. */
  function YearViewAsWritten(y: int, m: int, d: int): (v: YearView)
    requires Calendar.ValidDate(y, m, d)
    ensures v.totalDays == Calendar.DaysInYear(y)
    ensures v.daysPassed == Calendar.DayOfYear(y, m, d)
    ensures 1 <= v.daysPassed <= v.totalDays
  {
    YearView(Calendar.DaysInYear(y), Calendar.DayOfYear(y, m, d))
  }

  /** On the last day of any year the grid as written has no cell for
      today, and on January 1 the first cell, which is today, is already
      lit as gone. */
  lemma AsWrittenLosesToday(y: int)
    ensures var v := YearViewAsWritten(y, 12, 31);
            GridCells.CountClass(v.totalDays, v.daysPassed, GridCells.Current) == 0
    ensures var v := YearViewAsWritten(y, 1, 1);
            GridCells.Classify(0, v.daysPassed) == GridCells.Passed
            && GridCells.Classify(1, v.daysPassed) == GridCells.Current
  {
    var v := YearViewAsWritten(y, 12, 31);
    GridCells.CurrentCells(v.totalDays, v.daysPassed);
  }

  /** The view as intended: the days gone are the days before today, so
      cell `i` stands for day `i + 1` of the year. */
  function YearViewOf(y: int, m: int, d: int): (v: YearView)
    requires Calendar.ValidDate(y, m, d)
    ensures v.totalDays == Calendar.DaysInYear(y)
    ensures 0 <= v.daysPassed < v.totalDays
    ensures v.daysPassed == Calendar.DayNumber(y, m, d) - Calendar.DayNumber(y, 1, 1)
  {
    YearView(Calendar.DaysInYear(y), Calendar.DayOfYear(y, m, d) - 1)
  }

  /** Every date of every year has exactly one white cell, the cell of its
      own day of the year, and exactly the days before it are lit. */
  lemma TodayCellIsToday(y: int, m: int, d: int, i: nat)
    requires Calendar.ValidDate(y, m, d)
    ensures var v := YearViewOf(y, m, d);
            GridCells.CountClass(v.totalDays, v.daysPassed, GridCells.Current) == 1
            && GridCells.CountClass(v.totalDays, v.daysPassed, GridCells.Passed) == Calendar.DayOfYear(y, m, d) - 1
            && (GridCells.Classify(i, v.daysPassed) == GridCells.Current <==> i + 1 == Calendar.DayOfYear(y, m, d))
  {
    var v := YearViewOf(y, m, d);
    GridCells.CurrentCells(v.totalDays, v.daysPassed);
    GridCells.PassedCells(v.totalDays, v.daysPassed);
  }

  /** The footer: the share of the year gone, from 0% on January 1 up to
      under 100% on December 31. */
  function YearProgress(y: int, m: int, d: int): (pct: int)
    requires Calendar.ValidDate(y, m, d)
    ensures 0 <= pct <= 100
    ensures m == 1 && d == 1 ==> pct == 0
  {
    var v := YearViewOf(y, m, d);
    GridCells.Progress(v.daysPassed, v.totalDays)
  }

  /** Later dates of the same year never show less progress. */
  lemma YearProgressMonotone(y: int, m1: int, d1: int, m2: int, d2: int)
    requires Calendar.ValidDate(y, m1, d1) && Calendar.ValidDate(y, m2, d2)
    requires Calendar.DayNumber(y, m1, d1) <= Calendar.DayNumber(y, m2, d2)
    ensures YearProgress(y, m1, d1) <= YearProgress(y, m2, d2)
  {
    var v1 := YearViewOf(y, m1, d1);
    var v2 := YearViewOf(y, m2, d2);
    GridCells.ProgressMonotone(v1.daysPassed, v2.daysPassed, v1.totalDays);
  }
}
