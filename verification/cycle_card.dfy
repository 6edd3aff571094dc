/** The interactive sleep/work dial: a drag on the ring picks a number of
    hours in half-hour steps, the card shows it against an 8-hour target
    with a warning and a feedback line, and confirming writes it into the
    settings with the same 24-hour guard as the dashboard handlers. The
    pointer position is reduced to its angle clockwise from twelve o'clock;
    `atan2` itself is not modelled. */
module CycleCard {
  import opened Types
  import opened RecordStore
  import opened Wrappers
  import Numbers
  import Backend
  import App
  import AttributeEngine

  datatype CycleKind = SleepCycle | WorkCycle

  const TargetHours: real := 8.0
  /** Work above this many hours draws the warning. */
  const WorkLimit: real := 10.0

  /** Hours on the dial are whole or half hours. */
  predicate HalfStep(h: real) {
    (h * 2.0).Floor as real == h * 2.0
  }

  /** The pointer angle `a` (degrees, from the `atan2` reading shifted by a
      quarter turn) to hours: a negative angle is taken once round, the
      full circle is 24 hours, the result is rounded to the nearest half
      hour and clamped to 0..24. */
  function AngleToHours(a: real): (h: real)
    ensures 0.0 <= h <= 24.0
    ensures HalfStep(h)
    ensures var raw := (if a < 0.0 then a + 360.0 else a) / 15.0;
            0.0 <= raw <= 24.0 ==> raw - 0.25 < h <= raw + 0.25
  {
    var angle := if a < 0.0 then a + 360.0 else a;
    var raw := angle / 360.0 * 24.0;
    assert raw == angle / 15.0;
    var n := Numbers.Round(raw * 2.0);
    var rounded := n as real / 2.0;
    assert HalfStep(rounded) by {
      assert rounded * 2.0 == n as real;
    }
    assert 0.0 <= raw <= 24.0 ==> 0 <= n <= 48;
    Numbers.MinReal(24.0, Numbers.MaxReal(0.0, rounded))
  }

  /** Pointing at the angle of a half-hour mark reads that mark back. */
  lemma AngleOfHours(h: real)
    requires 0.0 <= h <= 24.0 && HalfStep(h)
    ensures AngleToHours(h * 15.0) == h
  {
    var n := (h * 2.0).Floor;
    assert h * 15.0 / 360.0 * 24.0 * 2.0 == n as real;
    Numbers.RoundInt(n);
  }

  /** The ring's fill: `hours / 8 * 100` percent. */
  function Percentage(hours: real): (pct: real)
    ensures pct < 100.0 <==> hours < TargetHours
    ensures pct == 100.0 <==> hours == TargetHours
  {
    hours / TargetHours * 100.0
  }

  /** The card's warning: too little sleep or too much work. */
  predicate IsWarning(kind: CycleKind, hours: real) {
    match kind
    case SleepCycle => hours < TargetHours
    case WorkCycle => hours > WorkLimit
  }

  datatype Feedback = SleepLow | SleepGood | WorkHigh | WorkGood

  function FeedbackFor(kind: CycleKind, hours: real): (f: Feedback)
    ensures kind == SleepCycle <==> f == SleepLow || f == SleepGood
    ensures f == SleepLow || f == WorkHigh <==> IsWarning(kind, hours)
  {
    match kind
    case SleepCycle => if hours < TargetHours then SleepLow else SleepGood
    case WorkCycle => if hours > WorkLimit then WorkHigh else WorkGood
  }

  /** For sleep the warning is exactly an unfilled ring. */
  lemma SleepWarningIsUnfilledRing(hours: real)
    ensures IsWarning(SleepCycle, hours) <==> Percentage(hours) < 100.0
  {
  }

  /** The settings after confirming `hours`: the value picked is stored,
      and the other value is cut back to `24 - hours` when the two would
      exceed a day. */
  function ConfirmSettings(st: UserSettings, kind: CycleKind, hours: real): (r: UserSettings)
    ensures kind == SleepCycle ==> r.todaySleepTime == hours
    ensures kind == WorkCycle ==> r.todayWorkTime == hours
    ensures r.todaySleepTime + r.todayWorkTime <= 24.0
    ensures kind == SleepCycle ==> r == st.(todaySleepTime := hours, todayWorkTime := r.todayWorkTime)
    ensures kind == WorkCycle ==> r == st.(todayWorkTime := hours, todaySleepTime := r.todaySleepTime)
  {
    match kind
    case SleepCycle =>
      var work := if hours + st.todayWorkTime > 24.0 then 24.0 - hours else st.todayWorkTime;
      st.(todaySleepTime := hours, todayWorkTime := work)
    case WorkCycle =>
      var sleep := if hours + st.todaySleepTime > 24.0 then 24.0 - hours else st.todaySleepTime;
      st.(todayWorkTime := hours, todaySleepTime := sleep)
  }

  /** The card and the dashboard guard the day alike: confirming on the
      card gives the settings the dashboard's own change handler gives. */
  lemma ConfirmMatchesDashboard(st: UserSettings, hours: real)
    ensures ConfirmSettings(st, SleepCycle, hours) == App.HandleSleepChange(st, hours)
    ensures ConfirmSettings(st, WorkCycle, hours) == App.HandleWorkChange(st, hours)
  {
  }

  /** `handleConfirm`: reads the stored settings, writes the adjusted ones
      through `updateSettings` (which grants the healthy-sleep growth) and
      hands the picked hours to the parent. */
  function HandleConfirm(s: Store, kind: CycleKind, hours: real, now: int): (r: (Store, real))
    ensures Settings(r.0) == ConfirmSettings(Settings(s), kind, hours)
    ensures r.1 == hours
    ensures forall e :: e != SettingsEndpoint ==> Read(r.0, e) == Read(s, e)
  {
    var (s', _) := Backend.UpdateSettings(s, ConfirmSettings(Settings(s), kind, hours), now);
    (s', hours)
  }

  /** Confirming the same hours twice stores what confirming once does. */
  lemma ConfirmTwiceSettles(s: Store, kind: CycleKind, hours: real, now: int, later: int)
    ensures Settings(HandleConfirm(HandleConfirm(s, kind, hours, now).0, kind, hours, later).0)
         == Settings(HandleConfirm(s, kind, hours, now).0)
  {
  }

  /** The confirm as the dashboard wires it: `handleConfirm` stores the
      settings through `updateSettings`, then the parent's `onChange` is
      the dashboard's own sleep or work handler, which applies the same
      24-hour guard to the dashboard's copy `shown` of the settings and
      stores that through `updateSettings` a second time, at `later`. */
  function ConfirmAsWritten(s: Store, shown: UserSettings, kind: CycleKind, hours: real, now: int, later: int)
    : (r: Store)
    ensures Settings(r) == ConfirmSettings(shown, kind, hours)
    ensures Backend.HealthySleep(ConfirmSettings(shown, kind, hours).todaySleepTime)
            ==> r.attributes == Some(AttributeEngine.Grow(
                  AttributeEngine.GetActiveAttributes(HandleConfirm(s, kind, hours, now).0, later).1,
                  Backend.SleepGrowth))
    ensures forall e :: e != SettingsEndpoint ==> Read(r, e) == Read(s, e)
  {
    ConfirmMatchesDashboard(shown, hours);
    var (s1, h) := HandleConfirm(s, kind, hours, now);
    var next := match kind
      case SleepCycle => App.HandleSleepChange(shown, h)
      case WorkCycle => App.HandleWorkChange(shown, h);
    Backend.UpdateSettings(s1, next, later).0
  }

  /** When both writes carry healthy sleep and the parent's write lands at
      the same instant, the health growth is granted twice: the second
      read sees the first grant undecayed and grows it again. */
  lemma ConfirmAsWrittenGrowsTwice(s: Store, shown: UserSettings, kind: CycleKind,
                                    hours: real, now: int)
    requires Backend.HealthySleep(ConfirmSettings(Settings(s), kind, hours).todaySleepTime)
    requires Backend.HealthySleep(ConfirmSettings(shown, kind, hours).todaySleepTime)
    requires AttributeEngine.AllAtLeast(AttributeEngine.Stored(s), AttributeEngine.Floor)
    requires s.lastSync.None? || s.lastSync.value <= now
    ensures var a := AttributeEngine.GetActiveAttributes(s, now).1;
            ConfirmAsWritten(s, shown, kind, hours, now, now).attributes
              == Some(AttributeEngine.Grow(AttributeEngine.Grow(a, Backend.SleepGrowth), Backend.SleepGrowth))
  {
    var g := Backend.SleepGrowth;
    var s1 := HandleConfirm(s, kind, hours, now).0;
    var grown := AttributeEngine.ApplyGrowth(s, now, g);
    assert s1.attributes == grown.attributes && s1.lastSync == grown.lastSync;
    AttributeEngine.ReadAfterGrowthSameInstant(s, now, g);
    assert AttributeEngine.GetActiveAttributes(s1, now).1 == AttributeEngine.GetActiveAttributes(grown, now).1;
  }

  /** Confirming eight hours of sleep on a fresh store: health reads 0.80
      instead of the 0.75 that one grant gives. */
  lemma ConfirmAsWrittenExample()
    ensures ConfirmAsWritten(EmptyStore, Settings(EmptyStore), SleepCycle, 8.0, 0, 0).attributes.value.health == 0.80
    ensures ConfirmOnce(EmptyStore, Settings(EmptyStore), SleepCycle, 8.0, 0).0.attributes.value.health == 0.75
  {
    ConfirmAsWrittenGrowsTwice(EmptyStore, Settings(EmptyStore), SleepCycle, 8.0, 0);
  }

  /** The confirm with the settings stored once: the card's write is the
      only one, and the parent adopts the picked hours into its own copy
      of the settings without writing them again. */
  function ConfirmOnce(s: Store, shown: UserSettings, kind: CycleKind, hours: real, now: int)
    : (r: (Store, UserSettings))
    ensures Settings(r.0) == ConfirmSettings(Settings(s), kind, hours)
    ensures r.1 == ConfirmSettings(shown, kind, hours)
    ensures Backend.HealthySleep(ConfirmSettings(Settings(s), kind, hours).todaySleepTime)
            ==> r.0.attributes == Some(AttributeEngine.Grow(AttributeEngine.GetActiveAttributes(s, now).1,
                                                           Backend.SleepGrowth))
    ensures !Backend.HealthySleep(ConfirmSettings(Settings(s), kind, hours).todaySleepTime)
            ==> r.0.attributes == s.attributes
    ensures forall e :: e != SettingsEndpoint ==> Read(r.0, e) == Read(s, e)
  {
    ConfirmMatchesDashboard(shown, hours);
    var (s1, h) := HandleConfirm(s, kind, hours, now);
    var next := match kind
      case SleepCycle => App.HandleSleepChange(shown, h)
      case WorkCycle => App.HandleWorkChange(shown, h);
    (s1, next)
  }

  /** The wiring as written differs from the single write by exactly one
      more grant of the sleep growth, over the corrected store's scores. */
  lemma ConfirmAsWrittenGrowsOnceMore(s: Store, shown: UserSettings, kind: CycleKind, hours: real, now: int)
    requires Backend.HealthySleep(ConfirmSettings(Settings(s), kind, hours).todaySleepTime)
    requires Backend.HealthySleep(ConfirmSettings(shown, kind, hours).todaySleepTime)
    requires AttributeEngine.AllAtLeast(AttributeEngine.Stored(s), AttributeEngine.Floor)
    requires s.lastSync.None? || s.lastSync.value <= now
    ensures ConfirmAsWritten(s, shown, kind, hours, now, now).attributes
            == Some(AttributeEngine.Grow(ConfirmOnce(s, shown, kind, hours, now).0.attributes.value,
                                         Backend.SleepGrowth))
  {
    ConfirmAsWrittenGrowsTwice(s, shown, kind, hours, now);
  }
}
