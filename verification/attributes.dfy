/** The attribute engine: six engagement scores that decay with elapsed
    time ("entropy") when read and grow, capped, when the user acts.
    Reading the scores is itself a state change: the decayed snapshot and
    the read time are persisted (backend.ts `getActiveAttributes`). */
module AttributeEngine {
  import opened Wrappers
  import opened Types
  import opened RecordStore

  /** Decay per elapsed hour. */
  const EntropyRate: real := 0.002
  const MsPerHour: int := 3600000
  /** Decay never takes a score below this. */
  const Floor: real := 0.1
  /** Growth never takes a score above this. */
  const Cap: real := 1.0

  /** The scores of a store that has never persisted any. */
  const SeedAttributes: CoreAttributes := CoreAttributes(0.7, 0.5, 0.4, 0.6, 0.3, 0.5)

  predicate AllAtLeast(a: CoreAttributes, lo: real) {
    a.health >= lo && a.mind >= lo && a.skill >= lo && a.social >= lo && a.adventure >= lo && a.spirit >= lo
  }

  predicate AllAtMost(a: CoreAttributes, hi: real) {
    a.health <= hi && a.mind <= hi && a.skill <= hi && a.social <= hi && a.adventure <= hi && a.spirit <= hi
  }

  /** The documented range of every score. */
  predicate InRange(a: CoreAttributes) {
    AllAtLeast(a, Floor) && AllAtMost(a, Cap)
  }

  /** Pointwise `a <= b`. */
  predicate Below(a: CoreAttributes, b: CoreAttributes) {
    a.health <= b.health && a.mind <= b.mind && a.skill <= b.skill
    && a.social <= b.social && a.adventure <= b.adventure && a.spirit <= b.spirit
  }

  /** One score less `d`, but never below the floor. */
  function DecayOne(x: real, d: real): real {
    if x - d > Floor then x - d else Floor
  }

  /** `r` is the difference `x - d` when that is above the floor, else the
      floor. */
  predicate FlooredDiff(r: real, x: real, d: real) {
    r >= Floor && r >= x - d && (r == Floor || r == x - d)
  }

  /** Each score of `b` is the matching score of `a` less `d`, floored. */
  predicate ShrankBy(a: CoreAttributes, b: CoreAttributes, d: real) {
    FlooredDiff(b.health, a.health, d) && FlooredDiff(b.mind, a.mind, d)
    && FlooredDiff(b.skill, a.skill, d) && FlooredDiff(b.social, a.social, d)
    && FlooredDiff(b.adventure, a.adventure, d) && FlooredDiff(b.spirit, a.spirit, d)
  }

  /** Each score loses `d`, stopping at the floor. */
  function Decay(a: CoreAttributes, d: real): (r: CoreAttributes)
    ensures ShrankBy(a, r, d)
    ensures AllAtLeast(r, Floor)
    ensures d >= 0.0 && AllAtLeast(a, Floor) ==> Below(r, a)
    ensures d >= 0.0 && AllAtMost(a, Cap) ==> AllAtMost(r, Cap)
    ensures AllAtLeast(a, Floor + d) ==> r == CoreAttributes(a.health - d, a.mind - d, a.skill - d, a.social - d, a.adventure - d, a.spirit - d)
  {
    CoreAttributes(DecayOne(a.health, d), DecayOne(a.mind, d), DecayOne(a.skill, d),
                   DecayOne(a.social, d), DecayOne(a.adventure, d), DecayOne(a.spirit, d))
  }

  /** Decay for the time between two reads: elapsed hours times the rate. */
  function DecayBetween(lastSync: int, now: int): (d: real)
    ensures lastSync <= now ==> d >= 0.0
    ensures lastSync == now ==> d == 0.0
    ensures d * MsPerHour as real == (now - lastSync) as real * EntropyRate
  {
    (now - lastSync) as real / MsPerHour as real * EntropyRate
  }

  /** Every whole hour between two reads costs 0.002 of each score. */
  lemma DecayPerHour(t: int, k: nat)
    ensures DecayBetween(t, t + k * MsPerHour) == k as real * 0.002
  {
    assert (t + k * MsPerHour - t) as real == k as real * MsPerHour as real;
  }

  /** Two decays in a row are one decay by the sum: the floor is absorbing. */
  lemma DecayComposes(a: CoreAttributes, d1: real, d2: real)
    requires d1 >= 0.0 && d2 >= 0.0
    ensures Decay(Decay(a, d1), d2) == Decay(a, d1 + d2)
  {
  }

  /** Elapsed-time decay is additive over an intermediate read time. */
  lemma DecayBetweenAdds(t0: int, t1: int, t2: int)
    ensures DecayBetween(t0, t1) + DecayBetween(t1, t2) == DecayBetween(t0, t2)
  {
  }

  /** Decay by zero leaves scores that are already above the floor alone. */
  lemma DecayZero(a: CoreAttributes)
    requires AllAtLeast(a, Floor)
    ensures Decay(a, 0.0) == a
  {
  }

  /** The persisted scores, or the seed when none are persisted. */
  function Stored(s: Store): CoreAttributes {
    s.attributes.GetOr(SeedAttributes)
  }

  /** `getActiveAttributes`: decays the stored scores by the time since the
      last read (not at all when there was none), persists the result and
      records `now` as the last read time. */
  function GetActiveAttributes(s: Store, now: int): (r: (Store, CoreAttributes))
    ensures r.0 == s.(attributes := Some(r.1), lastSync := Some(now))
    ensures s.lastSync.None? ==> r.1 == Stored(s)
    ensures s.lastSync.Some? ==> r.1 == Decay(Stored(s), DecayBetween(s.lastSync.value, now))
    ensures s.lastSync.Some? ==> AllAtLeast(r.1, Floor)
    ensures s.lastSync.Some? && s.lastSync.value <= now && AllAtLeast(Stored(s), Floor) ==> Below(r.1, Stored(s))
    ensures InRange(Stored(s)) && (s.lastSync.None? || s.lastSync.value <= now) ==> InRange(r.1)
  {
    var attrs := Stored(s);
    var active := if s.lastSync.Some? then Decay(attrs, DecayBetween(s.lastSync.value, now)) else attrs;
    (s.(attributes := Some(active), lastSync := Some(now)), active)
  }

  /** A read `k` whole hours after the last one lowers every score by
      `0.002 * k`, or to the floor when that would take it below. */
  lemma ReadAfterHours(s: Store, k: nat)
    requires s.lastSync.Some?
    ensures ShrankBy(Stored(s), GetActiveAttributes(s, s.lastSync.value + k * MsPerHour).1, k as real * 0.002)
  {
    DecayPerHour(s.lastSync.value, k);
  }

  /** A fresh store reads as the seed scores. */
  lemma FreshStoreReadsSeed(now: int)
    ensures GetActiveAttributes(EmptyStore, now).1 == SeedAttributes
    ensures InRange(SeedAttributes)
  {
  }

  /** Reading twice at times `t1 <= t2` gives the same scores as reading
      once at `t2`: the decay depends only on the total elapsed time. */
  lemma ReadsArePathIndependent(s: Store, t1: int, t2: int)
    requires s.lastSync.Some? && s.lastSync.value <= t1 <= t2
    ensures GetActiveAttributes(GetActiveAttributes(s, t1).0, t2) == GetActiveAttributes(s, t2)
  {
    var t0 := s.lastSync.value;
    DecayBetweenAdds(t0, t1, t2);
    DecayComposes(Stored(s), DecayBetween(t0, t1), DecayBetween(t1, t2));
  }

  /** The scores seen by a series of reads at the given times. */
  function ReadSeries(s: Store, times: seq<int>): (snapshots: seq<CoreAttributes>)
    ensures |snapshots| == |times|
    decreases |times|
  {
    if |times| == 0 then []
    else
      var (s', a) := GetActiveAttributes(s, times[0]);
      [a] + ReadSeries(s', times[1..])
  }

  predicate NonDecreasing(times: seq<int>) {
    forall i, j :: 0 <= i < j < |times| ==> times[i] <= times[j]
  }

  /** Along any series of reads at non-decreasing times (starting no
      earlier than the last read), every snapshot after the first is
      pointwise below its predecessor and never under the floor. */
  lemma {:induction false} ReadSeriesNonIncreasing(s: Store, times: seq<int>)
    requires NonDecreasing(times)
    requires s.lastSync.Some? && |times| > 0 ==> s.lastSync.value <= times[0]
    requires AllAtLeast(Stored(s), Floor)
    ensures forall i :: 0 <= i < |times| ==> AllAtLeast(ReadSeries(s, times)[i], Floor)
    ensures forall i :: 0 < i < |times| ==> Below(ReadSeries(s, times)[i], ReadSeries(s, times)[i - 1])
    decreases |times|
  {
    if |times| > 0 {
      var (s', a) := GetActiveAttributes(s, times[0]);
      var rest := times[1..];
      assert NonDecreasing(rest) by {
        forall i, j | 0 <= i < j < |rest| ensures rest[i] <= rest[j] {
          assert rest[i] == times[i + 1] && rest[j] == times[j + 1];
        }
      }
      assert Stored(s') == a;
      ReadSeriesNonIncreasing(s', rest);
      var series := ReadSeries(s, times);
      assert series == [a] + ReadSeries(s', rest);
      if |rest| > 0 {
        assert rest[0] == times[1];
        assert ReadSeries(s', rest)[0] == GetActiveAttributes(s', rest[0]).1;
        assert Below(series[1], series[0]);
      }
    }
  }

  /** A growth request; an absent field grows by 0. */
  datatype Growth = Growth(
    health: Option<real>,
    mind: Option<real>,
    skill: Option<real>,
    social: Option<real>,
    adventure: Option<real>,
    spirit: Option<real>)

  const NoGrowth: Growth := Growth(None, None, None, None, None, None)

  function Amount(o: Option<real>): real {
    o.GetOr(0.0)
  }

  predicate NonNegative(g: Growth) {
    Amount(g.health) >= 0.0 && Amount(g.mind) >= 0.0 && Amount(g.skill) >= 0.0
    && Amount(g.social) >= 0.0 && Amount(g.adventure) >= 0.0 && Amount(g.spirit) >= 0.0
  }

  /** One score plus `g`, but never above the cap. */
  function GrowOne(x: real, g: real): real {
    if x + g < Cap then x + g else Cap
  }

  /** `r` is the sum `x + g` when that is below the cap, else the cap. */
  predicate CappedSum(r: real, x: real, g: real) {
    r <= Cap && r <= x + g && (r == Cap || r == x + g)
  }

  /** Each score of `b` is the matching score of `a` plus the given
      amount, capped. */
  predicate GrewBy(a: CoreAttributes, b: CoreAttributes,
                   health: real, mind: real, skill: real, social: real, adventure: real, spirit: real) {
    CappedSum(b.health, a.health, health) && CappedSum(b.mind, a.mind, mind)
    && CappedSum(b.skill, a.skill, skill) && CappedSum(b.social, a.social, social)
    && CappedSum(b.adventure, a.adventure, adventure) && CappedSum(b.spirit, a.spirit, spirit)
  }

  /** Each score gains its delta, stopping at the cap. */
  function Grow(a: CoreAttributes, g: Growth): (r: CoreAttributes)
    ensures AllAtMost(r, Cap)
    ensures NonNegative(g) && AllAtMost(a, Cap) ==> Below(a, r)
    ensures NonNegative(g) && AllAtLeast(a, Floor) ==> AllAtLeast(r, Floor)
    ensures GrewBy(a, r, Amount(g.health), Amount(g.mind), Amount(g.skill),
                   Amount(g.social), Amount(g.adventure), Amount(g.spirit))
  {
    CoreAttributes(GrowOne(a.health, Amount(g.health)), GrowOne(a.mind, Amount(g.mind)),
                   GrowOne(a.skill, Amount(g.skill)), GrowOne(a.social, Amount(g.social)),
                   GrowOne(a.adventure, Amount(g.adventure)), GrowOne(a.spirit, Amount(g.spirit)))
  }

  /** Growth keeps in-range scores in range. */
  lemma GrowPreservesRange(a: CoreAttributes, g: Growth)
    requires InRange(a) && NonNegative(g)
    ensures InRange(Grow(a, g)) && Below(a, Grow(a, g))
  {
  }

  /** An empty growth request changes nothing. */
  lemma GrowNothing(a: CoreAttributes)
    requires AllAtMost(a, Cap)
    ensures Grow(a, NoGrowth) == a
  {
  }

  /** `applyGrowth`: reads the active scores (with decay and the sync
      update) and then persists them grown by `g`. */
  function ApplyGrowth(s: Store, now: int, g: Growth): (r: Store)
    ensures r.lastSync == Some(now)
    ensures r.attributes == Some(Grow(GetActiveAttributes(s, now).1, g))
    ensures r.attributes.Some? && AllAtMost(r.attributes.value, Cap)
    ensures r == s.(attributes := r.attributes, lastSync := r.lastSync)
    ensures NonNegative(g) && AllAtMost(GetActiveAttributes(s, now).1, Cap)
            ==> Below(GetActiveAttributes(s, now).1, r.attributes.value)
    ensures InRange(Stored(s)) && NonNegative(g) && (s.lastSync.None? || s.lastSync.value <= now)
            ==> InRange(r.attributes.value)
  {
    var (s', a) := GetActiveAttributes(s, now);
    s'.(attributes := Some(Grow(a, g)))
  }

  /** A read at the instant of the last growth sees exactly the grown
      scores: no time has passed, so nothing decays, and a second growth
      at the same instant starts from the first one's result. */
  lemma ReadAfterGrowthSameInstant(s: Store, now: int, g: Growth)
    requires AllAtLeast(Stored(s), Floor) && (s.lastSync.None? || s.lastSync.value <= now)
    requires NonNegative(g)
    ensures GetActiveAttributes(ApplyGrowth(s, now, g), now).1 == ApplyGrowth(s, now, g).attributes.value
  {
    var a1 := ApplyGrowth(s, now, g).attributes.value;
    assert AllAtLeast(GetActiveAttributes(s, now).1, Floor);
    DecayZero(a1);
  }

  /** `n` reads in a row at the same instant. */
  function ReadTimes(s: Store, now: int, n: nat): (r: Store)
    ensures r == s.(attributes := r.attributes, lastSync := r.lastSync)
    ensures n > 0 ==> r.lastSync == Some(now)
  {
    if n == 0 then s else GetActiveAttributes(ReadTimes(s, now, n - 1), now).0
  }

  /** Once read at `now`, reading again at `now` sees the same scores: no
      time passes, and the scores read are already above the floor. */
  lemma {:induction false} RereadSameInstant(s: Store, now: int, n: nat)
    ensures AllAtLeast(Stored(s), Floor) && (s.lastSync.None? || s.lastSync.value <= now)
            ==> GetActiveAttributes(ReadTimes(s, now, n), now) == GetActiveAttributes(s, now)
    decreases n
  {
    if n > 0 && AllAtLeast(Stored(s), Floor) && (s.lastSync.None? || s.lastSync.value <= now) {
      RereadSameInstant(s, now, n - 1);
      var (s1, a) := GetActiveAttributes(s, now);
      assert AllAtLeast(a, Floor);
      DecayZero(a);
      assert GetActiveAttributes(s1, now).1 == a;
    }
  }

  /** `k` growth requests issued without waiting for each other at one
      instant. Each request reads (and persists) the decayed scores at
      once but writes its grown snapshot only later, in issue order, so
      the last snapshot grown once is what remains: `k` requests earn a
      single growth. */
  function UnawaitedGrowths(s: Store, now: int, g: Growth, k: nat): (r: Store)
    ensures k == 0 ==> r == s
    ensures k > 0 ==> r.lastSync == Some(now)
    ensures r == s.(attributes := r.attributes, lastSync := r.lastSync)
    ensures k > 0 && AllAtLeast(Stored(s), Floor) && (s.lastSync.None? || s.lastSync.value <= now)
            ==> r == ApplyGrowth(s, now, g)
  {
    if k == 0 then s
    else
      var s' := ReadTimes(s, now, k - 1);
      RereadSameInstant(s, now, k - 1);
      ApplyGrowth(s', now, g)
  }
}
