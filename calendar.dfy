/**
 * Instants and calendar days.
 *
 * An instant is a number of milliseconds since the epoch, as a JavaScript `Date` holds it.
 * A calendar day is the whole number of days since the epoch, counted in UTC.
 */
module Calendar {

  /** Milliseconds since 1970-01-01T00:00:00Z. */
  type Timestamp = int

  const MillisPerDay: int := 86_400_000

  /** The calendar day that contains instant `t` (Dafny's `/` rounds down, also before the epoch). */
  function Day(t: Timestamp): int
  {
    t / MillisPerDay
  }

  /** The first millisecond of the day that contains `date`. */
  function StartOfDay(date: Timestamp): (s: Timestamp)
    ensures s <= date < s + MillisPerDay
  {
    Day(date) * MillisPerDay
  }

  /** The last millisecond of the day that contains `date`. */
  function EndOfDay(date: Timestamp): (e: Timestamp)
    ensures date <= e && Day(e) == Day(date) && Day(e + 1) == Day(date) + 1
  {
    StartOfDay(date) + MillisPerDay - 1
  }

  /** `t` lies in the window from the start to the end of the day of `date`, both ends included. */
  predicate SameDay(t: Timestamp, date: Timestamp)
  {
    StartOfDay(date) <= t <= EndOfDay(date)
  }

  /** The inclusive day window holds exactly the instants of the same calendar day. */
  lemma SameDayIffDay(t: Timestamp, date: Timestamp)
    ensures SameDay(t, date) <==> Day(t) == Day(date)
  {
    var d := Day(date);
    var q := Day(t);
    assert q * MillisPerDay <= t < q * MillisPerDay + MillisPerDay;
    if q < d {
      assert q * MillisPerDay + MillisPerDay <= d * MillisPerDay;
    } else if q > d {
      assert d * MillisPerDay + MillisPerDay <= q * MillisPerDay;
    }
  }
}
