/** The standalone first version of the dashboard (the root `app.js`): its
    own reading of a photo's pieces, moderation and date, its year, month
    and ISO-week filters, the summary counts, and the filter pass behind the
    cards. Its rules differ from the current dashboard's: pieces are not
    clamped, the moderation date comes first, and a photo without a date
    passes every date filter. */
module LegacyApp {
  import opened Base
  import opened Text
  import opened Js
  import opened DateUtils
  import opened Sums
  import TimeSeries
  import PhotoHelpers

  // ---------------------------------------------------------------- photo fields

  /** `getPieces(photo)`: `Number(photo?.pieces) || 0`, negative values
      included. */
  function GetPieces(photo: Value): (r: Number)
    ensures !r.NaN?
    ensures Truthy(Num(ToNumber(Get(photo, "pieces")))) ==> r == ToNumber(Get(photo, "pieces"))
    ensures !Truthy(Num(ToNumber(Get(photo, "pieces")))) ==> r == Zero
  {
    var n := ToNumber(Get(photo, "pieces"));
    if Truthy(Num(n)) then n else Zero
  }

  /** Unlike the current dashboard, a negative count is kept as it is. */
  lemma NegativePiecesKept(photo: Value, k: int)
    requires k > 0 && Get(photo, "pieces") == Num(Fin(-k, 0))
    ensures GetPieces(photo) == Fin(-k, 0)
    ensures PhotoHelpers.Pieces(photo) == Zero
  {
    assert !Lt(Zero, Fin(-k, 0));
  }

  /** `isModerated(photo)`: the photo has a `moderated` date. */
  predicate IsModerated(photo: Value) {
    Truthy(Get(photo, "moderated"))
  }

  predicate IsUnmoderated(photo: Value) {
    !IsModerated(photo)
  }

  /** Milliseconds in a day. */
  const DayMs: int := 86400000

  type TimeOfDay = t: int | 0 <= t < DayMs

  /** A JavaScript `Date` read in the browser's time zone: the calendar
      date and the milliseconds since local midnight. */
  datatype Moment = Moment(date: Date, time: TimeOfDay)

  /** `new Date(str)` with the `isNaN(d.getTime())` check; `None` is an
      invalid date. */
  type MomentParser = Value -> Option<Moment>

  /** `getPhotoDate(photo)`: `moderated`, else `updated`, else `created`. */
  function GetPhotoDate(photo: Value, parse: MomentParser): (r: Option<Moment>)
    ensures Truthy(Get(photo, "moderated")) ==> r == parse(Get(photo, "moderated"))
    ensures !Truthy(Get(photo, "moderated")) && Truthy(Get(photo, "updated")) ==> r == parse(Get(photo, "updated"))
    ensures !Truthy(Get(photo, "moderated")) && !Truthy(Get(photo, "updated")) ==>
              r == if Truthy(Get(photo, "created")) then parse(Get(photo, "created")) else None
  {
    var s := Or(Or(Get(photo, "moderated"), Get(photo, "updated")), Get(photo, "created"));
    if !Truthy(s) then None else parse(s)
  }

  // ---------------------------------------------------------------- calendar

  function DaysInYear(y: int): int {
    if TimeSeries.IsLeapYear(y) then 366 else 365
  }

  /** Days in the months before `m`. */
  function DaysBeforeMonth(y: int, m: Month): int {
    var leap := if TimeSeries.IsLeapYear(y) then 1 else 0;
    match m
    case 1 => 0
    case 2 => 31
    case 3 => 59 + leap
    case 4 => 90 + leap
    case 5 => 120 + leap
    case 6 => 151 + leap
    case 7 => 181 + leap
    case 8 => 212 + leap
    case 9 => 243 + leap
    case 10 => 273 + leap
    case 11 => 304 + leap
    case 12 => 334 + leap
  }

  /** The day of the year, 1 for 1 January. */
  function DayOfYear(d: Date): int {
    DaysBeforeMonth(d.year, d.month) + d.day
  }

  lemma DayOfYearBounds(d: Date)
    requires TimeSeries.IsCalendarDate(d)
    ensures 1 <= DayOfYear(d) <= DaysInYear(d.year)
    ensures d.month < 12 ==> DayOfYear(d) <= DaysBeforeMonth(d.year, d.month + 1)
  {
  }

  /** `getDay()`: 0 for Sunday to 6 for Saturday, in the proleptic Gregorian
      calendar. */
  function Weekday(d: Date): (r: int)
    ensures 0 <= r < 7
  {
    var offsets := [0, 3, 2, 5, 0, 3, 5, 1, 4, 6, 2, 4];
    var y := if d.month < 3 then d.year - 1 else d.year;
    (y + y / 4 - y / 100 + y / 400 + offsets[d.month - 1] + d.day) % 7
  }

  /** The Thursday of the date's Monday-to-Sunday week, as its year and day
      of that year: `temp.setDate(temp.getDate() + 4 - (temp.getDay() || 7))`. */
  function Thursday(d: Date): (int, int) {
    var iso := if Weekday(d) == 0 then 7 else Weekday(d);
    var t := DayOfYear(d) + 4 - iso;
    if t < 1 then (d.year - 1, t + DaysInYear(d.year - 1))
    else if t > DaysInYear(d.year) then (d.year + 1, t - DaysInYear(d.year))
    else (d.year, t)
  }

  lemma ThursdayBounds(d: Date)
    requires TimeSeries.IsCalendarDate(d)
    ensures 1 <= Thursday(d).1 <= DaysInYear(Thursday(d).0)
  {
    DayOfYearBounds(d);
  }

  /** `Math.ceil(a / b)` on integers. */
  function CeilDiv(a: int, b: int): (r: int)
    requires b > 0
    ensures b * (r - 1) < a <= b * r
  {
    -((-a) / b)
  }

  /** The ceiling is the only integer with that property. */
  lemma CeilDivUnique(a: int, b: int, r: int)
    requires b > 0 && b * (r - 1) < a <= b * r
    ensures CeilDiv(a, b) == r
  {
    var c := CeilDiv(a, b);
    if c < r {
      MulMonotone(b, c, r - 1);
    } else if c > r {
      MulMonotone(b, r, c - 1);
    }
  }

  lemma MulMonotone(b: int, x: int, y: int)
    requires b > 0 && x <= y
    ensures b * x <= b * y
  {
    assert b * y - b * x == b * (y - x);
  }

  /** Days in the years from `from` up to, not including, `to`. */
  function YearDays(from: int, to: int): int
    decreases to - from
  {
    if from >= to then 0 else DaysInYear(from) + YearDays(from + 1, to)
  }

  /** `getISOWeek(d)` as written: the milliseconds from the start of the
      Thursday's year to the Thursday keep the time of day of `d`, and
      `new Date(y, 0, 1)` reads years 0 to 99 as 1900 to 1999. */
  function IsoWeekAsWritten(m: Moment): int {
    var (year, ordinal) := Thursday(m.date);
    var skipped := if 0 <= year <= 99 then YearDays(year, 1900 + year) else 0;
    var elapsed := (ordinal - 1 - skipped) * DayMs + m.time;
    CeilDiv(elapsed + DayMs, 7 * DayMs)
  }

  /** The ISO 8601 week number: the week of the year holding the date's
      Thursday, counted from the week holding the first Thursday. */
  function IsoWeek(d: Date): (w: int)
    ensures TimeSeries.IsCalendarDate(d) ==> 1 <= w <= 53
  {
    ThursdayBounds2(d);
    CeilDiv(Thursday(d).1, 7)
  }

  lemma ThursdayBounds2(d: Date)
    ensures TimeSeries.IsCalendarDate(d) ==> 1 <= Thursday(d).1 <= 366
  {
    if TimeSeries.IsCalendarDate(d) {
      ThursdayBounds(d);
    }
  }

  /** Outside years 0 to 99, the week as written is the ISO week, plus one
      when the Thursday is the 7th, 14th, … day of its year and the time is
      after midnight. */
  lemma IsoWeekAsWrittenOffByOne(m: Moment)
    requires !(0 <= Thursday(m.date).0 <= 99)
    ensures IsoWeekAsWritten(m) ==
              IsoWeek(m.date) + (if m.time > 0 && Thursday(m.date).1 % 7 == 0 then 1 else 0)
  {
    var ordinal := Thursday(m.date).1;
    var w := CeilDiv(ordinal, 7);
    var a := ordinal * DayMs + m.time;
    assert IsoWeekAsWritten(m) == CeilDiv(a, 7 * DayMs);
    if m.time > 0 && ordinal % 7 == 0 {
      assert ordinal == 7 * w;
      CeilDivUnique(a, 7 * DayMs, w + 1);
    } else if m.time > 0 {
      assert ordinal <= 7 * w - 1;
      CeilDivUnique(a, 7 * DayMs, w);
    } else {
      CeilDivUnique(a, 7 * DayMs, w);
    }
  }

  /** Thursday 7 January 2021 at noon is in ISO week 1, but the week as
      written reads 2. */
  lemma IsoWeekAsWrittenExample()
    ensures IsoWeekAsWritten(Moment(Date(2021, 1, 7), 43200000)) == 2
    ensures IsoWeek(Date(2021, 1, 7)) == 1
  {
    var d := Date(2021, 1, 7);
    assert Weekday(d) == 4;
    assert Thursday(d) == (2021, 7);
    CeilDivUnique(7 * DayMs + 43200000, 7 * DayMs, 2);
    CeilDivUnique(7, 7, 1);
  }

  // ---------------------------------------------------------------- date filters

  /** The year the filter asks for; `None` for a value `parseInt` reads as
      `NaN`, which no date matches. */
  predicate SameYear(d: Moment, year: string) {
    ParseInt(year) == Some(d.date.year)
  }

  /** `matchesYear(d, year)`. */
  function MatchesYear(d: Option<Moment>, year: string): (r: bool)
    ensures year == "" || d.None? ==> r
    ensures year != "" && d.Some? ==> (r <==> SameYear(d.value, year))
  {
    if year == "" || d.None? then true else SameYear(d.value, year)
  }

  /** `matchesMonth(d, month, year)`. */
  function MatchesMonth(d: Option<Moment>, month: string, year: string): (r: bool)
    ensures month == "" || d.None? ==> r
    ensures month != "" && d.Some? ==>
              (r <==> ParseInt(month) == Some(d.value.date.month) && (year == "" || SameYear(d.value, year)))
  {
    if month == "" || d.None? then true
    else ParseInt(month) == Some(d.value.date.month) && (year == "" || SameYear(d.value, year))
  }

  /** `matchesWeek(d, week, year)`, with `getISOWeek` as written. */
  function MatchesWeek(d: Option<Moment>, week: string, year: string): (r: bool)
    ensures week == "" || d.None? ==> r
    ensures week != "" && d.Some? ==>
              (r <==> ParseInt(week) == Some(IsoWeekAsWritten(d.value)) && (year == "" || SameYear(d.value, year)))
  {
    if week == "" || d.None? then true
    else ParseInt(week) == Some(IsoWeekAsWritten(d.value)) && (year == "" || SameYear(d.value, year))
  }

  /** The week filter the comment above `getISOWeek` intends: the ISO week
      of the photo's date. */
  function MatchesWeekIntended(d: Option<Moment>, week: string, year: string): (r: bool)
    ensures week == "" || d.None? ==> r
    ensures week != "" && d.Some? ==>
              (r <==> ParseInt(week) == Some(IsoWeek(d.value.date)) && (year == "" || SameYear(d.value, year)))
  {
    if week == "" || d.None? then true
    else ParseInt(week) == Some(IsoWeek(d.value.date)) && (year == "" || SameYear(d.value, year))
  }

  /** The week filter as written and the intended one decide alike, unless
      the photo was taken after midnight on a Thursday-week whose Thursday
      is the 7th, 14th, … day of its year. */
  lemma MatchesWeekAgree(d: Option<Moment>, week: string, year: string)
    requires d.Some? ==> !(0 <= Thursday(d.value.date).0 <= 99)
    requires d.Some? ==> !(d.value.time > 0 && Thursday(d.value.date).1 % 7 == 0)
    ensures MatchesWeek(d, week, year) == MatchesWeekIntended(d, week, year)
  {
    if d.Some? {
      IsoWeekAsWrittenOffByOne(d.value);
    }
  }

  /** A photo taken at noon on Thursday 7 January 2021 passes the filter
      for week 2 as written, and not the intended one. */
  lemma MatchesWeekExample()
    ensures var d := Some(Moment(Date(2021, 1, 7), 43200000));
            MatchesWeek(d, "2", "") && !MatchesWeekIntended(d, "2", "")
  {
    IsoWeekAsWrittenExample();
    ParseIntOfIntToString(2);
    assert IntToString(2) == "2";
  }

  /** The legacy year filter lets an undated photo through; the current one
      drops it. They agree on dated photos. */
  lemma YearFilterDiffers(d: Option<Moment>, year: string)
    ensures var current := DateUtils.MatchesYear(if d.Some? then Some(d.value.date) else None, year);
            MatchesYear(d, year) == (current || (year != "" && d.None?))
  {
  }

  // ---------------------------------------------------------------- counts

  /** `for (const id in photos)`: each id with `photos[id]`. */
  function Entries(photos: Value): (r: seq<(string, Value)>)
    ensures |r| == |Keys(photos)|
  {
    var ids := Keys(photos);
    seq(|ids|, i requires 0 <= i < |ids| => (ids[i], Get(photos, ids[i])))
  }

  function EntryPhoto(e: (string, Value)): Value {
    e.1
  }

  function Photos(photos: Value): (r: seq<Value>)
    ensures |r| == |Keys(photos)|
  {
    var es := Entries(photos);
    seq(|es|, i requires 0 <= i < |es| => es[i].1)
  }

  /** `sumTotalPieces(photos)`. */
  function SumTotalPieces(photos: Value): Number {
    Sum(Photos(photos), GetPieces)
  }

  /** `countModerated(photos)`. */
  function CountModerated(photos: Value): nat {
    Count(Photos(photos), IsModerated)
  }

  /** `countUnmoderated(photos)`. */
  function CountUnmoderated(photos: Value): nat {
    Count(Photos(photos), IsUnmoderated)
  }

  /** Every photo is counted as moderated or as unmoderated, never both. */
  lemma CountsPartition(photos: Value)
    ensures CountModerated(photos) + CountUnmoderated(photos) == |Keys(photos)|
  {
    CountSplit(Photos(photos), IsModerated, IsUnmoderated);
  }

  // ---------------------------------------------------------------- filtering

  /** The values of the filter form. */
  datatype Form = Form(status: string, minPieces: string, year: string, month: string, week: string)

  /** The checks of `filterPhotos` in order: status, minimum pieces, year,
      month and week. */
  predicate Passes(p: Value, status: string, minPieces: Number, year: string, month: string, week: string,
                   parse: MomentParser) {
    && !(status == "moderated" && !IsModerated(p))
    && !(status == "unmoderated" && IsModerated(p))
    && !Lt(GetPieces(p), minPieces)
    && var d := GetPhotoDate(p, parse);
       MatchesYear(d, year) && MatchesMonth(d, month, year) && MatchesWeek(d, week, year)
  }

  function Keep(status: string, minPieces: Number, year: string, month: string, week: string,
                parse: MomentParser): ((string, Value)) -> bool {
    (e: (string, Value)) => Passes(e.1, status, minPieces, year, month, week, parse)
  }

  /** `filterPhotos(photos, status, minPieces, year, month, week)`. */
  function FilterPhotos(photos: Value, status: string, minPieces: Number, year: string, month: string, week: string,
                        parse: MomentParser): Value {
    Obj(Filter(Entries(Or(photos, Obj([]))), Keep(status, minPieces, year, month, week, parse)))
  }

  /** The result holds exactly the photos of the input that pass every
      check, under their own ids, and no more of them. */
  lemma FilterPhotosFacts(photos: Value, status: string, minPieces: Number, year: string, month: string, week: string,
                          parse: MomentParser)
    ensures var out := FilterPhotos(photos, status, minPieces, year, month, week, parse);
            var input := Entries(Or(photos, Obj([])));
            && |out.fields| <= |input|
            && forall e :: e in out.fields <==>
                 e in input && Passes(e.1, status, minPieces, year, month, week, parse)
  {
    var keep := Keep(status, minPieces, year, month, week, parse);
    var input := Entries(Or(photos, Obj([])));
    forall e ensures e in Filter(input, keep) <==> e in input && keep(e) {
      FilterMembers(input, keep, e);
    }
    CountIsFilterLength(input, keep);
  }

  /** `Math.max(0, parseInt(value, 10) || 0)`. */
  function MinPieces(value: string): (r: int)
    ensures r >= 0
    ensures ParseInt(value).None? ==> r == 0
    ensures ParseInt(value).Some? ==> r == if ParseInt(value).value > 0 then ParseInt(value).value else 0
  {
    var n := ParseInt(value).GetOr(0);
    if n > 0 then n else 0
  }

  /** What the four summary cards show: total pieces, moderated,
      unmoderated and total photos. */
  datatype Cards = Cards(totalPieces: Number, moderated: nat, unmoderated: nat, totalPhotos: nat)

  /** `renderCards(filtered)` without the page. */
  function RenderCards(filtered: Value): Cards {
    var f := Or(filtered, Obj([]));
    Cards(SumTotalPieces(f), CountModerated(f), CountUnmoderated(f), |Keys(f)|)
  }

  /** `applyFilters(photos)` given the filter form. */
  function ApplyFilters(photos: Value, form: Form, parse: MomentParser): Cards {
    var minPieces := Fin(MinPieces(form.minPieces), 0);
    RenderCards(FilterPhotos(photos, form.status, minPieces, form.year, form.month, form.week, parse))
  }

  /** The first field named `key` is one of the fields. */
  lemma {:induction false} FieldOfIsField(fields: seq<(string, Value)>, key: string, i: nat)
    requires i < |fields| && fields[i].0 == key
    ensures (key, FieldOf(fields, key)) in fields
    decreases i
  {
    if fields[0].0 != key {
      FieldOfIsField(fields[1..], key, i - 1);
    }
  }

  /** Every photo that reaches the cards passed every check. */
  lemma FilteredPhotosPass(photos: Value, status: string, minPieces: Number, year: string, month: string,
                           week: string, parse: MomentParser)
    ensures var ps := Photos(FilterPhotos(photos, status, minPieces, year, month, week, parse));
            forall i :: 0 <= i < |ps| ==> Passes(ps[i], status, minPieces, year, month, week, parse)
  {
    var out := FilterPhotos(photos, status, minPieces, year, month, week, parse);
    var ps := Photos(out);
    forall i | 0 <= i < |ps| ensures Passes(ps[i], status, minPieces, year, month, week, parse) {
      var key := out.fields[i].0;
      assert ps[i] == FieldOf(out.fields, key);
      FieldOfIsField(out.fields, key, i);
    }
  }

  /** The cards agree with each other: the moderated and unmoderated
      counts add up to the photo count, which is at most the number of
      photos loaded, and a status filter empties the other count. */
  lemma ApplyFiltersFacts(photos: Value, form: Form, parse: MomentParser)
    ensures var cards := ApplyFilters(photos, form, parse);
            && cards.moderated + cards.unmoderated == cards.totalPhotos
            && cards.totalPhotos <= |Keys(Or(photos, Obj([])))|
            && (form.status == "moderated" ==> cards.unmoderated == 0)
            && (form.status == "unmoderated" ==> cards.moderated == 0)
  {
    var minPieces := Fin(MinPieces(form.minPieces), 0);
    var out := FilterPhotos(photos, form.status, minPieces, form.year, form.month, form.week, parse);
    CountsPartition(out);
    FilteredPhotosPass(photos, form.status, minPieces, form.year, form.month, form.week, parse);
    var ps := Photos(out);
    if form.status == "moderated" {
      CountNone(ps, IsUnmoderated);
    } else if form.status == "unmoderated" {
      CountNone(ps, IsModerated);
    }
  }
}
