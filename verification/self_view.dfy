/** The self screen (SelfView.tsx): the two day-allocation charts, the
    countdown to the letter's opening date, the three letter states, the
    six-symbol key pad, and sealing and unlocking the letter. */
module SelfView {
  import opened Wrappers
  import opened Types
  import opened RecordStore
  import Numbers
  import LetterVault
  import Notifications
  import App

  /** The three slices of a day chart, in hours. */
  datatype Allocation = Allocation(rest: real, work: real, hobby: real)

  function Total(a: Allocation): real {
    a.rest + a.work + a.hobby
  }

  /** `ChronosChart`: the slices scaled so that they fill 24 hours; with a
      non-positive total the factor is 1. */
  function NormaliseChart(a: Allocation): (r: Allocation)
    ensures Total(a) > 0.0 ==> Total(r) == 24.0
    ensures Total(a) <= 0.0 ==> r == a
    ensures Total(a) > 0.0 ==> r.rest * Total(a) == a.rest * 24.0 && r.work * Total(a) == a.work * 24.0
  {
    var factor := if Total(a) > 0.0 then 24.0 / Total(a) else 1.0;
    Allocation(a.rest * factor, a.work * factor, a.hobby * factor)
  }

  /** The target chart: the sleep offset, 8 hours of work and the rest of
      16 hours as hobby (never negative). */
  function TargetAllocation(st: UserSettings): (r: Allocation)
    ensures r.hobby >= 0.0 && r.work == 8.0 && r.rest == st.sleepOffset
    ensures st.sleepOffset <= 16.0 ==> Total(r) == 24.0
  {
    Allocation(st.sleepOffset, 8.0, Numbers.MaxReal(0.0, 16.0 - st.sleepOffset))
  }

  /** Today's chart: today's sleep and work and what is left of the day
      (never negative). */
  function TodayAllocation(st: UserSettings): (r: Allocation)
    ensures r.hobby >= 0.0 && r.rest == st.todaySleepTime && r.work == st.todayWorkTime
    ensures st.todaySleepTime + st.todayWorkTime <= 24.0 ==> Total(r) == 24.0
  {
    Allocation(st.todaySleepTime, st.todayWorkTime,
               Numbers.MaxReal(0.0, 24.0 - st.todaySleepTime - st.todayWorkTime))
  }

  /** Settings kept within a day by the sleep/work handlers chart without
      scaling: normalising is the identity. */
  lemma TodayChartNeedsNoScaling(st: UserSettings, val: real)
    ensures var r := TodayAllocation(App.HandleSleepChange(st, val));
            NormaliseChart(r) == r
  {
  }

  const MsPerSecond: int := 1000
  const MsPerMinute: int := 60000
  const MsPerHour: int := 3600000
  const MsPerDay: int := 86400000

  datatype TimeLeft = TimeLeft(d: int, h: int, m: int, s: int)

  const Zero: TimeLeft := TimeLeft(0, 0, 0, 0)

  function Millis(t: TimeLeft): int {
    t.d * MsPerDay + t.h * MsPerHour + t.m * MsPerMinute + t.s * MsPerSecond
  }

  /** `x % a % b == x % b` when `b` divides `a`. */
  lemma ModOfMultiple(x: int, k: int, b: int)
    requires x >= 0 && k > 0 && b > 0
    ensures (x % (k * b)) % b == x % b
  {
    var a := k * b;
    var q := x / a;
    var r := x % a;
    assert x == q * a + r;
    assert q * a == (q * k) * b;
    ModAddMultiple(r, q * k, b);
  }

  lemma ModAddMultiple(r: int, n: int, b: int)
    requires r >= 0 && n >= 0 && b > 0
    ensures (n * b + r) % b == r % b
  {
    var q := r / b;
    assert r == q * b + r % b;
    assert n * b + r == (n + q) * b + r % b;
    ModUnique(n * b + r, b, n + q, r % b);
  }

  /** The remainder is the only `m` in `[0, b)` with `x == q * b + m`. */
  lemma ModUnique(x: int, b: int, q: int, m: int)
    requires b > 0 && 0 <= m < b && x == q * b + m
    ensures x % b == m
  {
    var q' := x / b;
    var m' := x % b;
    var d := q - q';
    Distribute(q, q', b);
    assert d * b == m' - m;
    if d >= 1 {
      AtLeastOnce(d, b);
    } else if d <= -1 {
      AtLeastOnce(-d, b);
      Distribute(0, d, b);
    }
  }

  lemma Distribute(a: int, c: int, b: int)
    ensures (a - c) * b == a * b - c * b
  {
  }

  lemma AtLeastOnce(d: int, b: int)
    requires d >= 1 && b > 0
    ensures d * b >= b
  {
    assert d * b == (d - 1) * b + b;
  }

  /** The countdown the timer computes for `diff` milliseconds left. */
  function Countdown(diff: int): (t: TimeLeft)
    ensures diff <= 0 ==> t == Zero
    ensures diff > 0 ==> 0 <= t.h < 24 && 0 <= t.m < 60 && 0 <= t.s < 60 && t.d >= 0
    ensures diff > 0 ==> Millis(t) <= diff < Millis(t) + MsPerSecond
  {
    if diff <= 0 then Zero
    else
      var t := TimeLeft(diff / MsPerDay, (diff % MsPerDay) / MsPerHour,
                        (diff % MsPerHour) / MsPerMinute, (diff % MsPerMinute) / MsPerSecond);
      CountdownSums(diff);
      t
  }

  lemma CountdownSums(diff: int)
    requires diff > 0
    ensures var t := TimeLeft(diff / MsPerDay, (diff % MsPerDay) / MsPerHour,
                              (diff % MsPerHour) / MsPerMinute, (diff % MsPerMinute) / MsPerSecond);
            0 <= t.h < 24 && 0 <= t.m < 60 && 0 <= t.s < 60
            && Millis(t) <= diff < Millis(t) + MsPerSecond
  {
    var r1 := diff % MsPerDay;
    var r2 := diff % MsPerHour;
    var r3 := diff % MsPerMinute;
    ModOfMultiple(diff, 24, MsPerHour);
    ModOfMultiple(diff, 60, MsPerMinute);
    ModOfMultiple(diff, 60, MsPerSecond);
    assert r2 == r1 % MsPerHour;
    assert r3 == r2 % MsPerMinute;
    assert diff == (diff / MsPerDay) * MsPerDay + r1;
    assert r1 == (r1 / MsPerHour) * MsPerHour + r2;
    assert r2 == (r2 / MsPerMinute) * MsPerMinute + r3;
    assert r3 == (r3 / MsPerSecond) * MsPerSecond + r3 % MsPerSecond;
  }

  /** The three letter states of the screen: no letter (none loaded, or a
      record with status none), sealed, or open. */
  predicate IsLetterOpen(fl: Option<FutureLetter>) {
    fl.Some? && fl.value.status == LetterOpen
  }

  predicate IsLetterEncrypted(fl: Option<FutureLetter>) {
    fl.Some? && fl.value.status == LetterEncrypted
  }

  predicate IsNoLetter(fl: Option<FutureLetter>) {
    fl.None? || fl.value.status == LetterNone
  }

  datatype LetterState = NoLetterState | EncryptedState | OpenState

  /** Every letter value is in exactly one of the three states. */
  function StateOf(fl: Option<FutureLetter>): (r: LetterState)
    ensures r == NoLetterState <==> IsNoLetter(fl)
    ensures r == EncryptedState <==> IsLetterEncrypted(fl)
    ensures r == OpenState <==> IsLetterOpen(fl)
  {
    if fl.None? then NoLetterState
    else match fl.value.status
      case LetterNone => NoLetterState
      case LetterEncrypted => EncryptedState
      case LetterOpen => OpenState
  }

  /** The countdown on screen: it runs only for a loaded letter that is
      not open, against the letter's target time; otherwise zeros. */
  function DisplayTime(fl: Option<FutureLetter>, targetMs: int, now: int): (t: TimeLeft)
    ensures fl.None? || IsLetterOpen(fl) ==> t == Zero
    ensures now >= targetMs ==> t == Zero
    ensures fl.Some? && !IsLetterOpen(fl) && now < targetMs ==> t == Countdown(targetMs - now)
  {
    if fl.None? || IsLetterOpen(fl) then Zero else Countdown(targetMs - now)
  }

  /** What the screen keeps from a letter read: anything but "none". */
  function LoadedLetter(v: LetterVault.LetterView): (fl: Option<FutureLetter>)
    ensures v.NoLetter? ==> fl.None?
    ensures fl.Some? ==> fl.value.status != LetterNone
  {
    if v.Shown? && v.letter.status != LetterNone then Some(v.letter) else None
  }

  /** `toggleMorseBit(i)`: flips position `i` between dot and dash (any
      other symbol becomes a dot); nothing else changes. */
  function ToggleMorseBit(bits: string, i: nat): (r: string)
    requires i < |bits|
    ensures |r| == |bits|
    ensures forall j :: 0 <= j < |bits| && j != i ==> r[j] == bits[j]
    ensures r[i] == '-' <==> bits[i] == '.'
    ensures LetterVault.IsKeySymbol(r[i])
  {
    bits[i := if bits[i] == '.' then '-' else '.']
  }

  /** Flipping a key symbol twice gives it back, and a pad of key
      symbols stays a pad of key symbols. */
  lemma ToggleMorseBitTwice(bits: string, i: nat)
    requires i < |bits| && LetterVault.IsKeySymbol(bits[i])
    ensures ToggleMorseBit(ToggleMorseBit(bits, i), i) == bits
  {
  }

  const InitialPad: string := "......"

  datatype EncryptionMode = AutoMode | ManualMode

  function FutureOnlyWarning(language: Language): string {
    if language == English then "Unable to perform time travel. Destination must be in the future."
    else "無法進行時間穿越。目的地必須設定在未來。"
  }

  /** What sealing does: nothing, a warning, or a stored letter. */
  datatype SealOutcome = Ignored | Refused(store: Store) | Sealed(store: Store, letter: FutureLetter)

  /** `handleSaveLetterInternal`: nothing for empty content or date; a
      warning and no save when the chosen day is not after today (days
      compared as local day numbers); otherwise the letter is sealed with
      the pad's symbols in manual mode and a generated key in auto mode. */
  function HandleSaveLetter(s: Store, content: string, targetDate: string, targetDay: int, today: int,
                            targetIso: string, createdAt: string, mode: EncryptionMode, pad: string,
                            flips: seq<bool>, language: Language, noticeId: string, timestamp: string)
    : (r: SealOutcome)
    requires |flips| == LetterVault.KeyLength
    ensures content == "" || targetDate == "" <==> r.Ignored?
    ensures r.Refused? <==> content != "" && targetDate != "" && targetDay <= today
    ensures r.Refused? ==> r.store.records == s.records && |r.store.notifications| > 0
                           && r.store.notifications[0].kind == WarningToast
    ensures r.Sealed? ==> r.letter.status == LetterEncrypted && r.letter.content == content
                          && Read(r.store, FutureLetterEndpoint) == LetterRecord(r.letter)
    ensures r.Sealed? && mode == ManualMode && pad != "" ==> r.letter.decryptionKey == Some(pad)
  {
    if content == "" || targetDate == "" then Ignored
    else if targetDay <= today then
      Refused(Notifications.Notify(s, FutureOnlyWarning(language), WarningToast, noticeId, timestamp).0)
    else
      var key := if mode == ManualMode then Some(pad) else None;
      var (s1, letter) := LetterVault.SaveFutureLetter(s, content, targetIso, createdAt, key, flips);
      Sealed(s1, letter)
  }

  /** `handleManualUnlock`: reads the letter with the pad as key; a shown
      letter replaces the screen's one, a refusal raises the error flag. */
  function HandleManualUnlock(s: Store, current: Option<FutureLetter>, pad: string)
    : (r: (Option<FutureLetter>, bool))
    ensures r.1 <==> LetterVault.GetFutureLetter(s, Some(pad)).Failure?
    ensures r.1 ==> r.0 == current
    ensures forall l :: (LetterVault.GetFutureLetter(s, Some(pad)) == Success(LetterVault.Shown(l))
                         && l.status != LetterNone) ==> r.0 == Some(l)
    ensures LetterVault.GetFutureLetter(s, Some(pad)) == Success(LetterVault.NoLetter) ==> r.0 == current
  {
    match LetterVault.GetFutureLetter(s, Some(pad))
    case Success(v) => (if v.Shown? && v.letter.status != LetterNone then Some(v.letter) else current, false)
    case Failure(_) => (current, true)
  }

  /** A letter sealed by hand opens with the same pad; the screen then
      shows it open and the countdown reads zero. */
  lemma ManualSealThenUnlock(s: Store, content: string, targetDate: string, targetDay: int, today: int,
                             targetIso: string, createdAt: string, pad: string, flips: seq<bool>,
                             language: Language, noticeId: string, timestamp: string, targetMs: int, now: int)
    requires |flips| == LetterVault.KeyLength
    requires content != "" && targetDate != "" && targetDay > today && pad != ""
    ensures var r := HandleSaveLetter(s, content, targetDate, targetDay, today, targetIso, createdAt,
                                      ManualMode, pad, flips, language, noticeId, timestamp);
            r.Sealed? && var u := HandleManualUnlock(r.store, None, pad);
            !u.1 && IsLetterOpen(u.0) && u.0.value.content == content && DisplayTime(u.0, targetMs, now) == Zero
  {
    LetterVault.SaveThenOpen(s, content, targetIso, createdAt, Some(pad), flips);
  }

  /** A sealed letter read back without a key is shown sealed, and its
      countdown runs. */
  lemma SealedLetterLoadsEncrypted(s: Store, content: string, targetIso: string, createdAt: string,
                                   key: Option<string>, flips: seq<bool>)
    requires |flips| == LetterVault.KeyLength
    ensures var s1 := LetterVault.SaveFutureLetter(s, content, targetIso, createdAt, key, flips).0;
            var v := LetterVault.GetFutureLetter(s1, None);
            v.Success? && StateOf(LoadedLetter(v.value)) == EncryptedState
  {
    LetterVault.SaveThenPeek(s, content, targetIso, createdAt, key, flips);
  }
}
