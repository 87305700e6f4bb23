/** Calendar dates as the dashboard reads them, and the year and month filters
    of the current dashboard. */
module DateUtils {
  import opened Base
  import opened Text
  import opened Js

  type Month = m: int | 1 <= m <= 12 witness 1
  type Day = d: int | 1 <= d <= 31 witness 1

  /** A valid JavaScript `Date` as seen through `getFullYear()`,
      `getMonth() + 1` and `getDate()` in the browser's time zone. */
  datatype Date = Date(year: int, month: Month, day: Day)

  /** `new Date(x)` followed by the `isNaN(d.getTime())` check: `None` is an
      invalid date. JavaScript's date-string parsing and time zones are not
      modelled, so the parser is a parameter. */
  type DateParser = Value -> Option<Date>

  /** `matchesYear(d, year)`. */
  function MatchesYear(d: Option<Date>, year: string): (r: bool)
    ensures year == "" ==> r
    ensures year != "" && d.None? ==> !r
    ensures year != "" && ParseInt(year).None? ==> !r
    ensures year != "" && d.Some? && ParseInt(year).Some? ==> (r <==> d.value.year == ParseInt(year).value)
  {
    if year == "" then true
    else if d.None? then false
    else
      match ParseInt(year)
      case None => false
      case Some(y) => d.value.year == y
  }

  /** `matchesMonth(d, month)`. Unlike the year filter, a month filter that is
      not a number is ignored. */
  function MatchesMonth(d: Option<Date>, month: string): (r: bool)
    ensures month == "" ==> r
    ensures month != "" && d.None? ==> !r
    ensures month != "" && d.Some? && ParseInt(month).None? ==> r
    ensures month != "" && d.Some? && ParseInt(month).Some? ==> (r <==> d.value.month == ParseInt(month).value)
  {
    if month == "" then true
    else if d.None? then false
    else
      match ParseInt(month)
      case None => true
      case Some(m) => d.value.month == m
  }

  /** A year option written the way the year dropdown writes it selects exactly
      the dates in that year. */
  lemma YearOptionSelectsYear(d: Option<Date>, y: int)
    ensures MatchesYear(d, IntToString(y)) <==> d.Some? && d.value.year == y
  {
    ParseIntOfIntToString(y);
  }

  /** A month option "1".."12" or "01".."12" selects exactly the dates in that
      month (of any year). */
  lemma MonthOptionSelectsMonth(d: Option<Date>, m: Month)
    ensures MatchesMonth(d, IntToString(m)) <==> d.Some? && d.value.month == m
    ensures MatchesMonth(d, Pad2(m)) <==> d.Some? && d.value.month == m
  {
    ParseIntOfIntToString(m);
    Pad2Facts(m);
  }
}
