/** The current time as the source reads it: `Date.now()` in milliseconds
    and `new Date().toISOString()`. Both are inputs to every operation that
    reads the clock; the model does not relate the two. */
module Clock {
  import Text

  datatype Instant = Instant(ms: int, iso: string)

  /** The UTC calendar day of an ISO timestamp: everything before the
      first 'T'. */
  function DayKey(iso: string): (day: string)
    ensures 'T' !in day
    ensures Text.StartsWith(iso, day)
    ensures |day| < |iso| ==> iso[|day|] == 'T'
  {
    Text.SplitJoin(iso, 'T');
    Text.Split(iso, 'T')[0]
  }
}
