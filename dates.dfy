/**
 * Calendar values and the two date parsers the program calls. Both
 * parsers are library code, so the model takes them as partial functions
 * supplied by the caller: one is `dateutil.parser.parse(s, dayfirst=True)`,
 * used on transcript timestamps, and the other is
 * `datetime.strptime(s, "%m/%d/%Y").date()`, used on the command line's
 * date window. These are two distinct modes and are kept apart.
 */
module Dates {
  import opened Wrappers

  type Hour = h: int | 0 <= h < 24
  type Minute = m: int | 0 <= m < 60

  /** A `datetime.date`. */
  datatype Date = Date(year: int, month: int, day: int)

  /** A `datetime.datetime` at minute precision; `date()` is its `date` field. */
  datatype DateTime = DateTime(date: Date, hour: Hour, minute: Minute)

  /** `dateutil.parser.parse(s, dayfirst=True)`; `None` where it raises. */
  type DayFirstParser = string -> Option<DateTime>

  /** `datetime.strptime(s, "%m/%d/%Y").date()`; `None` where it raises `ValueError`. */
  type MonthFirstParser = string -> Option<Date>

  /** `a <= b` on dates: chronological, that is year, then month, then day. */
  predicate AtMost(a: Date, b: Date) {
    a.year < b.year
    || (a.year == b.year && (a.month < b.month || (a.month == b.month && a.day <= b.day)))
  }

  /** `AtMost` is a total order, so it behaves like Python's comparison of dates. */
  lemma AtMostIsTotalOrder()
    ensures forall a :: AtMost(a, a)
    ensures forall a, b :: AtMost(a, b) && AtMost(b, a) ==> a == b
    ensures forall a, b, c :: AtMost(a, b) && AtMost(b, c) ==> AtMost(a, c)
    ensures forall a, b :: AtMost(a, b) || AtMost(b, a)
  {
  }
}
