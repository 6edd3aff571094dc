/** The soul tab: a level from 1 to 10 drawn from the four inner scores
    (spirit, mind, adventure, social), shown as that many orbiting planets
    around a core whose size grows with the level, beside the mood
    stability figure. Star positions, planet orbits and colours are random
    and are not modelled. */
module SelfSoulTab {
  import opened Types
  import Numbers
  import AttributeEngine

  const MinLevel: int := 1
  const MaxLevel: int := 10

  /** The mean of the four inner scores; health and skill do not count. */
  function InnerMean(a: CoreAttributes): real {
    (a.spirit + a.mind + a.adventure + a.social) / 4.0
  }

  /** Ten times the average, rounded and clamped to 1..10. */
  function SoulLevel(a: CoreAttributes): (level: int)
    ensures MinLevel <= level <= MaxLevel
    ensures MinLevel <= Numbers.Round(InnerMean(a) * 10.0) <= MaxLevel ==> level == Numbers.Round(InnerMean(a) * 10.0)
    ensures Numbers.Round(InnerMean(a) * 10.0) < MinLevel ==> level == MinLevel
    ensures Numbers.Round(InnerMean(a) * 10.0) > MaxLevel ==> level == MaxLevel
  {
    var calculated := Numbers.Round(InnerMean(a) * 10.0);
    if calculated < MinLevel then MinLevel
    else if calculated > MaxLevel then MaxLevel
    else calculated
  }

  /** The level does not depend on health or skill. */
  lemma SoulIgnoresHealthAndSkill(a: CoreAttributes, health: real, skill: real)
    ensures SoulLevel(a.(health := health, skill := skill)) == SoulLevel(a)
  {
  }

  /** Higher inner scores never give a lower level. */
  lemma SoulLevelMonotone(a: CoreAttributes, b: CoreAttributes)
    requires AttributeEngine.Below(a, b)
    ensures SoulLevel(a) <= SoulLevel(b)
  {
    Numbers.RoundMonotone(InnerMean(a) * 10.0, InnerMean(b) * 10.0);
  }

  /** For scores in their documented range the clamp never bites: the
      level is the rounded mean on a scale of ten. */
  lemma InRangeNeedsNoClamp(a: CoreAttributes)
    requires AttributeEngine.InRange(a)
    ensures SoulLevel(a) == Numbers.Round(InnerMean(a) * 10.0)
  {
    Numbers.RoundMonotone(1.0, InnerMean(a) * 10.0);
    Numbers.RoundMonotone(InnerMean(a) * 10.0, 10.0);
    Numbers.RoundInt(1);
    Numbers.RoundInt(10);
  }

  /** What the tab draws. */
  datatype SoulView = SoulView(level: int, moodStability: real, planets: nat, coreSize: real)

  /** The view of the analytics: the level, the mood stability as given,
      one planet per level and a core of `10 + 1.5 * level`. */
  function SoulViewOf(analytics: UserAnalytics): (v: SoulView)
    ensures v.level == SoulLevel(analytics.attributes)
    ensures v.moodStability == analytics.moodStability
    ensures v.planets as int == v.level
    ensures 11.5 <= v.coreSize <= 25.0
  {
    var level := SoulLevel(analytics.attributes);
    SoulView(level, analytics.moodStability, level, 10.0 + level as real * 1.5)
  }

  /** A bigger core always means more planets. */
  lemma CoreGrowsWithPlanets(x: UserAnalytics, y: UserAnalytics)
    ensures SoulViewOf(x).coreSize < SoulViewOf(y).coreSize <==> SoulViewOf(x).planets < SoulViewOf(y).planets
  {
  }
}
