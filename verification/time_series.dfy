/** The data behind the time-series chart: HTML escaping for its labels, the
    granularity chosen from the date filters, bucket keys and their parsing
    back into dates, and the per-bucket sums of pieces and photos. */
module TimeSeries {
  import opened Base
  import opened Text
  import opened Js
  import opened DateUtils
  import opened PhotoHelpers
  import opened Sums
  import opened Groups
  import opened Sorting

  // ---------------------------------------------------------------- escapeHtml

  /** `s.replaceAll(c, rep)` for a one-character pattern. */
  function ReplaceAll(s: string, c: char, rep: string): string
    decreases |s|
  {
    if |s| == 0 then "" else (if s[0] == c then rep else [s[0]]) + ReplaceAll(s[1..], c, rep)
  }

  lemma {:induction false} ReplaceAllAppend(a: string, b: string, c: char, rep: string)
    ensures ReplaceAll(a + b, c, rep) == ReplaceAll(a, c, rep) + ReplaceAll(b, c, rep)
    decreases |a|
  {
    if |a| == 0 {
      assert a + b == b;
    } else {
      assert (a + b)[1..] == a[1..] + b;
      ReplaceAllAppend(a[1..], b, c, rep);
    }
  }

  lemma {:induction false} ReplaceAllAbsent(s: string, c: char, rep: string)
    requires forall i :: 0 <= i < |s| ==> s[i] != c
    ensures ReplaceAll(s, c, rep) == s
    decreases |s|
  {
    if |s| > 0 {
      ReplaceAllAbsent(s[1..], c, rep);
    }
  }

  lemma ReplaceAllOne(x: char, c: char, rep: string)
    ensures ReplaceAll([x], c, rep) == if x == c then rep else [x]
  {
    assert [x][1..] == "";
  }

  /** The five replacements of `escapeHtml`, ampersand first. */
  function EscapeText(s: string): string {
    var amp := ReplaceAll(s, '&', "&amp;");
    var lt := ReplaceAll(amp, '<', "&lt;");
    var gt := ReplaceAll(lt, '>', "&gt;");
    var quot := ReplaceAll(gt, '"', "&quot;");
    ReplaceAll(quot, '\'', "&#39;")
  }

  /** `escapeHtml(value)`: the text of `String(value)` with the five HTML
      special characters replaced by entities. */
  function EscapeHtml(value: Value): string {
    EscapeText(ToText(value))
  }

  predicate IsHtmlSpecial(c: char) {
    c == '&' || c == '<' || c == '>' || c == '"' || c == '\''
  }

  /** The entity that stands for one character (the character itself if it is
      not special). */
  function EscapeChar(c: char): (r: string)
    ensures |r| >= 1
    ensures IsHtmlSpecial(c) <==> r[0] == '&'
  {
    if c == '&' then "&amp;"
    else if c == '<' then "&lt;"
    else if c == '>' then "&gt;"
    else if c == '"' then "&quot;"
    else if c == '\'' then "&#39;"
    else [c]
  }

  /** Character-by-character escaping, the reference the five passes are compared with. */
  function EscapeEach(s: string): string
    decreases |s|
  {
    if |s| == 0 then "" else EscapeChar(s[0]) + EscapeEach(s[1..])
  }

  /** The passes after the one that replaced a character leave its entity
      alone: no entity contains `<`, `>`, `"` or `'`. */
  lemma EntityUntouched(e: string)
    requires forall i :: 0 <= i < |e| ==> e[i] != '<' && e[i] != '>' && e[i] != '"' && e[i] != '\''
    ensures ReplaceAll(e, '<', "&lt;") == e
    ensures ReplaceAll(e, '>', "&gt;") == e
    ensures ReplaceAll(e, '"', "&quot;") == e
    ensures ReplaceAll(e, '\'', "&#39;") == e
  {
    ReplaceAllAbsent(e, '<', "&lt;");
    ReplaceAllAbsent(e, '>', "&gt;");
    ReplaceAllAbsent(e, '"', "&quot;");
    ReplaceAllAbsent(e, '\'', "&#39;");
  }

  lemma EscapeTextOfChar(x: char)
    ensures EscapeText([x]) == EscapeChar(x)
  {
    ReplaceAllOne(x, '&', "&amp;");
    if x == '&' {
      EntityUntouched("&amp;");
    } else {
      ReplaceAllOne(x, '<', "&lt;");
      if x == '<' {
        EntityUntouched("&lt;");
      } else {
        ReplaceAllOne(x, '>', "&gt;");
        if x == '>' {
          EntityUntouched("&gt;");
        } else {
          ReplaceAllOne(x, '"', "&quot;");
          if x == '"' {
            EntityUntouched("&quot;");
          } else {
            ReplaceAllOne(x, '\'', "&#39;");
          }
        }
      }
    }
  }

  /** Running the five passes one after the other escapes each character on
      its own: because `&` goes first, no entity is escaped a second time. */
  lemma {:induction false} EscapeTextIsEscapeEach(s: string)
    ensures EscapeText(s) == EscapeEach(s)
    decreases |s|
  {
    if |s| > 0 {
      var x, rest := [s[0]], s[1..];
      assert s == x + rest;
      ReplaceAllAppend(x, rest, '&', "&amp;");
      var a1, b1 := ReplaceAll(x, '&', "&amp;"), ReplaceAll(rest, '&', "&amp;");
      ReplaceAllAppend(a1, b1, '<', "&lt;");
      var a2, b2 := ReplaceAll(a1, '<', "&lt;"), ReplaceAll(b1, '<', "&lt;");
      ReplaceAllAppend(a2, b2, '>', "&gt;");
      var a3, b3 := ReplaceAll(a2, '>', "&gt;"), ReplaceAll(b2, '>', "&gt;");
      ReplaceAllAppend(a3, b3, '"', "&quot;");
      var a4, b4 := ReplaceAll(a3, '"', "&quot;"), ReplaceAll(b3, '"', "&quot;");
      ReplaceAllAppend(a4, b4, '\'', "&#39;");
      EscapeTextOfChar(s[0]);
      EscapeTextIsEscapeEach(rest);
    }
  }

  /** Decoding the five entities; any other character stands for itself. */
  function Unescape(t: string): string
    decreases |t|
  {
    if |t| == 0 then ""
    else if StartsWith(t, "&amp;") then "&" + Unescape(t[5..])
    else if StartsWith(t, "&lt;") then "<" + Unescape(t[4..])
    else if StartsWith(t, "&gt;") then ">" + Unescape(t[4..])
    else if StartsWith(t, "&quot;") then "\"" + Unescape(t[6..])
    else if StartsWith(t, "&#39;") then "'" + Unescape(t[5..])
    else [t[0]] + Unescape(t[1..])
  }

  /** Text that differs from `e` at position `k` does not start with `e`. */
  lemma DiffersAt(t: string, e: string, k: nat)
    requires k < |e| && k < |t| && t[k] != e[k]
    ensures !StartsWith(t, e)
  {
  }

  /** Decoding entity `e` at the front of `e + u`, once the entities tried
      before it have been ruled out. */
  lemma UnescapeFront(e: string, u: string)
    requires StartsWith(e + u, e)
    ensures (e + u)[|e|..] == u
  {
  }

  lemma UnescapeStep(c: char, u: string)
    ensures Unescape(EscapeChar(c) + u) == [c] + Unescape(u)
  {
    var e := EscapeChar(c);
    var t := e + u;
    assert t[..|e|] == e;
    UnescapeFront(e, u);
    if !IsHtmlSpecial(c) {
      assert t[0] == c;
      DiffersAt(t, "&amp;", 0);
      DiffersAt(t, "&lt;", 0);
      DiffersAt(t, "&gt;", 0);
      DiffersAt(t, "&quot;", 0);
      DiffersAt(t, "&#39;", 0);
    } else if c == '&' {
    } else if c == '<' {
      DiffersAt(t, "&amp;", 1);
    } else if c == '>' {
      DiffersAt(t, "&amp;", 1);
      DiffersAt(t, "&lt;", 1);
    } else if c == '"' {
      DiffersAt(t, "&amp;", 1);
      DiffersAt(t, "&lt;", 1);
      DiffersAt(t, "&gt;", 1);
    } else {
      DiffersAt(t, "&amp;", 1);
      DiffersAt(t, "&lt;", 1);
      DiffersAt(t, "&gt;", 1);
      DiffersAt(t, "&quot;", 1);
    }
  }

  /** Escaping loses nothing: decoding the escaped text gives the original. */
  lemma {:induction false} UnescapeEscapeEach(s: string)
    ensures Unescape(EscapeEach(s)) == s
    decreases |s|
  {
    if |s| > 0 {
      UnescapeEscapeEach(s[1..]);
      UnescapeStep(s[0], EscapeEach(s[1..]));
      assert s == [s[0]] + s[1..];
    }
  }

  /** One of the five entities starts at `i`. */
  predicate EntityAt(t: string, i: nat) {
    OccursAt(t, "&amp;", i) || OccursAt(t, "&lt;", i) || OccursAt(t, "&gt;", i)
    || OccursAt(t, "&quot;", i) || OccursAt(t, "&#39;", i)
  }

  /** Text safe to place in HTML: no raw `<`, `>`, `"` or `'`, and every `&`
      starts an entity. */
  predicate HtmlSafe(t: string) {
    && (forall i :: 0 <= i < |t| ==> t[i] != '<' && t[i] != '>' && t[i] != '"' && t[i] != '\'')
    && (forall i :: 0 <= i < |t| && t[i] == '&' ==> EntityAt(t, i))
  }

  lemma EntityShift(a: string, b: string, i: nat)
    requires EntityAt(b, i)
    ensures EntityAt(a + b, |a| + i)
  {
    var t := a + b;
    forall e: string | OccursAt(b, e, i) ensures OccursAt(t, e, |a| + i) {
      assert t[|a| + i..|a| + i + |e|] == b[i..i + |e|];
    }
  }

  lemma EntityExtend(a: string, b: string, i: nat)
    requires EntityAt(a, i)
    ensures EntityAt(a + b, i)
  {
    var t := a + b;
    forall e: string | OccursAt(a, e, i) ensures OccursAt(t, e, i) {
      assert t[i..i + |e|] == a[i..i + |e|];
    }
  }

  /** Safe text stays safe when joined. */
  lemma SafeJoin(a: string, b: string)
    requires HtmlSafe(a) && HtmlSafe(b)
    ensures HtmlSafe(a + b)
  {
    var t := a + b;
    forall i | 0 <= i < |t| && t[i] == '&' ensures EntityAt(t, i) {
      if i < |a| {
        assert a[i] == '&';
        EntityExtend(a, b, i);
      } else {
        assert b[i - |a|] == '&';
        EntityShift(a, b, i - |a|);
      }
    }
  }

  lemma EntitySafe(e: string)
    requires e in ["&amp;", "&lt;", "&gt;", "&quot;", "&#39;"]
    ensures HtmlSafe(e)
  {
    assert OccursAt(e, e, 0);
    assert forall i :: 0 < i < |e| ==> e[i] != '&';
  }

  lemma EscapeCharSafe(c: char)
    ensures HtmlSafe(EscapeChar(c))
  {
    if IsHtmlSpecial(c) {
      EntitySafe(EscapeChar(c));
    }
  }

  lemma {:induction false} EscapeEachSafe(s: string)
    ensures HtmlSafe(EscapeEach(s))
    decreases |s|
  {
    if |s| > 0 {
      EscapeEachSafe(s[1..]);
      EscapeCharSafe(s[0]);
      SafeJoin(EscapeChar(s[0]), EscapeEach(s[1..]));
    }
  }

  /** `escapeHtml` output is safe to place in HTML and decodes back to
      `String(value)`. */
  lemma EscapeHtmlFacts(value: Value)
    ensures HtmlSafe(EscapeHtml(value))
    ensures Unescape(EscapeHtml(value)) == ToText(value)
  {
    EscapeTextIsEscapeEach(ToText(value));
    EscapeEachSafe(ToText(value));
    UnescapeEscapeEach(ToText(value));
  }

  // ---------------------------------------------------------------- granularity

  datatype Granularity = Year | Month | Day

  /** `String(filters?.year || '').trim()` and likewise for other keys. */
  function FilterText(filters: Value, key: string): string {
    Trim(TextOr(Get(filters, key)))
  }

  /** `chooseTimeGranularity(filters)`: days when a year and a month are
      chosen, months when only a year is, years otherwise. */
  function ChooseTimeGranularity(filters: Value): (g: Granularity)
    ensures g == Day <==> FilterText(filters, "year") != "" && FilterText(filters, "month") != ""
    ensures g == Month <==> FilterText(filters, "year") != "" && FilterText(filters, "month") == ""
    ensures g == Year <==> FilterText(filters, "year") == ""
  {
    var year := FilterText(filters, "year");
    var month := FilterText(filters, "month");
    if year != "" && month != "" then Day
    else if year != "" then Month
    else Year
  }

  // ---------------------------------------------------------------- bucket keys

  /** `bucketKey(d, granularity)`: "YYYY", "YYYY-MM" or "YYYY-MM-DD", the
      month and day zero-padded; "" for a missing date. */
  function BucketKey(d: Option<Date>, g: Granularity): (r: string)
    ensures r == "" <==> d.None?
  {
    if d.None? then ""
    else
      var y := IntToString(d.value.year);
      match g
      case Year => y
      case Month => y + "-" + Pad2(d.value.month)
      case Day => y + "-" + Pad2(d.value.month) + "-" + Pad2(d.value.day)
  }

  predicate IsLeapYear(y: int) {
    y % 4 == 0 && (y % 100 != 0 || y % 400 == 0)
  }

  /** Days in a month of the proleptic Gregorian calendar JavaScript uses. */
  function DaysInMonth(y: int, m: Month): (n: int)
    ensures 28 <= n <= 31
  {
    if m == 2 then (if IsLeapYear(y) then 29 else 28)
    else if m == 4 || m == 6 || m == 9 || m == 11 then 30
    else 31
  }

  /** A day that exists in its month; every JavaScript `Date` is one. */
  predicate IsCalendarDate(d: Date) {
    d.day <= DaysInMonth(d.year, d.month)
  }

  /** The year `new Date(y, …)` uses: 0 to 99 mean 1900 to 1999. */
  function FullYear(y: int): int {
    if 0 <= y <= 99 then 1900 + y else y
  }

  /** Day `day` of month `m`, rolling over into the following months when
      the month is too short. */
  function RollOver(y: int, m: Month, day: int): (r: Date)
    requires day >= 1
    ensures IsCalendarDate(r)
    decreases day
  {
    if day <= DaysInMonth(y, m) then Date(y, m, day)
    else if m == 12 then RollOver(y + 1, 1, day - 31)
    else RollOver(y, m + 1, day - DaysInMonth(y, m))
  }

  /** `new Date(y, monthIndex, day)` for the non-negative month index and
      positive day the parser passes: months past December carry into the
      year and days past the month's end into later months. */
  function NewDate(y: int, monthIndex: nat, day: int): (r: Date)
    requires day >= 1
    ensures IsCalendarDate(r)
  {
    CarryMonths(FullYear(y), monthIndex, day)
  }

  /** Month indexes past 11 carry into the following years. */
  function CarryMonths(y: int, monthIndex: nat, day: int): (r: Date)
    requires day >= 1
    ensures IsCalendarDate(r)
    decreases monthIndex
  {
    if monthIndex >= 12 then CarryMonths(y + 1, monthIndex - 12, day) else RollOver(y, monthIndex + 1, day)
  }

  /** The `i`-th `-`-separated part read by `parseInt`; `None` when it is
      missing or not a number. */
  function Part(parts: seq<string>, i: nat): Option<int> {
    if i < |parts| then ParseInt(parts[i]) else None
  }

  function AtLeast(lo: int, x: int): int {
    if x < lo then lo else x
  }

  /** `parseBucketKeyToDate(key, granularity)`. */
  function ParseBucketKey(key: string, g: Granularity): Option<Date> {
    var args := ReadArgs(key, g);
    if args.Some? then Some(NewDate(args.value.year, args.value.monthIndex, args.value.day)) else None
  }

  /** The `new Date` arguments read from the `-`-separated parts of a key. */
  function ReadArgs(key: string, g: Granularity): Option<DateArgs> {
    var parts := Split(key, '-');
    FromFields(Part(parts, 0), Part(parts, 1), Part(parts, 2), g)
  }

  /** The first day of the bucket holding `d`. */
  function FirstOfBucket(d: Date, g: Granularity): Date {
    match g
    case Year => Date(d.year, 1, 1)
    case Month => Date(d.year, d.month, 1)
    case Day => d
  }

  lemma DigitsHaveNoDash(s: string)
    requires AllDigits(s)
    ensures forall i :: 0 <= i < |s| ==> s[i] != '-'
  {
    forall i | 0 <= i < |s| ensures s[i] != '-' {
      assert IsDigit(s[i]);
    }
  }

  /** The text fields of a key for a year of 0 or more: digits only. */
  lemma FieldsHaveNoDash(d: Date)
    requires d.year >= 0
    ensures IntToString(d.year) == NatToString(d.year)
    ensures forall i :: 0 <= i < |IntToString(d.year)| ==> IntToString(d.year)[i] != '-'
    ensures forall i :: 0 <= i < |Pad2(d.month)| ==> Pad2(d.month)[i] != '-'
    ensures forall i :: 0 <= i < |Pad2(d.day)| ==> Pad2(d.day)[i] != '-'
    ensures ParseInt(IntToString(d.year)) == Some(d.year)
    ensures ParseInt(Pad2(d.month)) == Some(d.month as int)
    ensures ParseInt(Pad2(d.day)) == Some(d.day as int)
  {
    DigitsHaveNoDash(NatToString(d.year));
    ParseIntOfIntToString(d.year);
    Pad2Facts(d.month);
    Pad2Facts(d.day);
    DigitsHaveNoDash(Pad2(d.month));
    DigitsHaveNoDash(Pad2(d.day));
  }

  predicate NoDash(s: string) {
    forall i :: 0 <= i < |s| ==> s[i] != '-'
  }

  lemma SplitTwo(a: string, b: string)
    requires NoDash(a) && NoDash(b)
    ensures Split(a + "-" + b, '-') == [a, b]
  {
    SplitNoSeparator(b, '-');
    SplitAtSeparator(a, '-', b);
    assert a + "-" + b == a + ['-'] + b;
  }

  lemma SplitThree(a: string, b: string, c: string)
    requires NoDash(a) && NoDash(b) && NoDash(c)
    ensures Split(a + "-" + b + "-" + c, '-') == [a, b, c]
  {
    var bc := b + "-" + c;
    assert a + "-" + b + "-" + c == a + ['-'] + bc;
    assert Split(bc, '-') == [b, c] by { SplitTwo(b, c); }
    SplitAtSeparator(a, '-', bc);
    assert [a] + [b, c] == [a, b, c];
  }

  /** The `-`-separated parts of a key for a year of 0 or more are its fields. */
  lemma KeySplit(d: Date, g: Granularity)
    requires d.year >= 0
    ensures Split(BucketKey(Some(d), g), '-') ==
              match g
              case Year => [IntToString(d.year)]
              case Month => [IntToString(d.year), Pad2(d.month)]
              case Day => [IntToString(d.year), Pad2(d.month), Pad2(d.day)]
  {
    FieldsHaveNoDash(d);
    var y, m, day := IntToString(d.year), Pad2(d.month), Pad2(d.day);
    match g
    case Year =>
      SplitNoSeparator(y, '-');
    case Month =>
      SplitTwo(y, m);
    case Day =>
      SplitThree(y, m, day);
  }

  /** Reading the parts of a key split into fields that parse as numbers. */
  lemma PartsRead(key: string, g: Granularity, y: string, m: string, day: string, vy: int, vm: int, vd: int)
    requires Split(key, '-') == match g
                                case Year => [y]
                                case Month => [y, m]
                                case Day => [y, m, day]
    requires ParseInt(y) == Some(vy) && ParseInt(m) == Some(vm) && ParseInt(day) == Some(vd)
    ensures var parts := Split(key, '-');
            && Part(parts, 0) == Some(vy)
            && (g != Year ==> Part(parts, 1) == Some(vm))
            && (g == Day ==> Part(parts, 2) == Some(vd))
  {
    var parts := Split(key, '-');
    assert |parts| >= 1 && parts[0] == y;
    assert g != Year ==> |parts| >= 2 && parts[1] == m;
    assert g == Day ==> |parts| == 3 && parts[2] == day;
  }

  /** `new Date` of an existing day, month index counted from 0. */
  lemma NewDateOfCalendarDate(y: int, m: Month, day: int)
    requires 1 <= day <= DaysInMonth(FullYear(y), m)
    ensures NewDate(y, m - 1, day) == Date(FullYear(y), m, day)
  {
  }

  type PositiveDay = n: int | n >= 1 witness 1

  /** The year, month index and day `parseBucketKeyToDate` passes to `new Date`. */
  datatype DateArgs = DateArgs(year: int, monthIndex: nat, day: PositiveDay)

  /** The arguments `parseBucketKeyToDate` builds from the numbers it reads:
      the month index and the day are clamped to 0 and 1 from below. */
  function FromFields(y: Option<int>, m: Option<int>, d: Option<int>, g: Granularity): Option<DateArgs> {
    match g
    case Year => if y.Some? then Some(DateArgs(y.value, 0, 1)) else None
    case Month =>
      if y.Some? && m.Some? then Some(DateArgs(y.value, AtLeast(0, m.value - 1), 1)) else None
    case Day =>
      if y.Some? && m.Some? && d.Some? then Some(DateArgs(y.value, AtLeast(0, m.value - 1), AtLeast(1, d.value)))
      else None
  }

  lemma ArgsOfFields(y: int, m: Month, day: Day, mo: Option<int>, dd: Option<int>, g: Granularity)
    ensures g == Year ==> FromFields(Some(y), mo, dd, g) == Some(DateArgs(y, 0, 1))
    ensures g == Month ==> FromFields(Some(y), Some(m as int), dd, g) == Some(DateArgs(y, m - 1, 1))
    ensures g == Day ==> FromFields(Some(y), Some(m as int), Some(day as int), g) == Some(DateArgs(y, m - 1, day))
  {
  }

  /** The arguments read from a key whose parts read as the given numbers. */
  lemma ReadArgsOfParts(key: string, g: Granularity, py: Option<int>, pm: Option<int>, pd: Option<int>, args: DateArgs)
    requires Part(Split(key, '-'), 0) == py && Part(Split(key, '-'), 1) == pm && Part(Split(key, '-'), 2) == pd
    requires FromFields(py, pm, pd, g) == Some(args)
    ensures ReadArgs(key, g) == Some(args)
  {
  }

  /** Parsing a key that reads as the given arguments. */
  lemma ParseOfArgs(key: string, g: Granularity, y: int, monthIndex: nat, day: PositiveDay)
    requires ReadArgs(key, g) == Some(DateArgs(y, monthIndex, day))
    ensures ParseBucketKey(key, g) == Some(NewDate(y, monthIndex, day))
  {
  }

  /** The arguments read from a key of granularity `g`: the fields it does not
      keep are 0 (month index) and 1 (day). */
  function FieldArgs(y: int, monthIndex: nat, day: PositiveDay, g: Granularity): DateArgs {
    match g
    case Year => DateArgs(y, 0, 1)
    case Month => DateArgs(y, monthIndex, 1)
    case Day => DateArgs(y, monthIndex, day)
  }

  /** The date a key of granularity `g` stands for, from the fields it keeps. */
  function FieldDate(y: int, monthIndex: nat, day: PositiveDay, g: Granularity): Date {
    var a := FieldArgs(y, monthIndex, day, g);
    NewDate(a.year, a.monthIndex, a.day)
  }

  lemma FieldDateCases(y: int, monthIndex: nat, day: PositiveDay, g: Granularity)
    ensures FieldDate(y, monthIndex, day, g) == match g
                                               case Year => NewDate(y, 0, 1)
                                               case Month => NewDate(y, monthIndex, 1)
                                               case Day => NewDate(y, monthIndex, day)
  {
  }

  /** The arguments read from a key whose parts read as a year, a month and a day. */
  lemma ReadArgsOfNumbers(key: string, g: Granularity, y: int, m: Month, day: Day)
    requires Part(Split(key, '-'), 0) == Some(y)
    requires g != Year ==> Part(Split(key, '-'), 1) == Some(m as int)
    requires g == Day ==> Part(Split(key, '-'), 2) == Some(day as int)
    ensures ReadArgs(key, g) == Some(FieldArgs(y, m - 1, day, g))
  {
    var py, pm, pd := Part(Split(key, '-'), 0), Part(Split(key, '-'), 1), Part(Split(key, '-'), 2);
    ArgsOfFields(y, m, day, pm, pd, g);
    ReadArgsOfParts(key, g, py, pm, pd, FieldArgs(y, m - 1, day, g));
  }

  /** Parsing a key that reads as the arguments of given fields. */
  lemma ParseOfFieldArgs(key: string, g: Granularity, y: int, monthIndex: nat, day: PositiveDay)
    requires ReadArgs(key, g) == Some(FieldArgs(y, monthIndex, day, g))
    ensures ParseBucketKey(key, g) == Some(FieldDate(y, monthIndex, day, g))
  {
    var a := FieldArgs(y, monthIndex, day, g);
    ParseOfArgs(key, g, a.year, a.monthIndex, a.day);
  }

  /** A key split into fields that parse as a year, a month and a day reads
      back as the date of those fields. */
  lemma ParseOfSplit(key: string, g: Granularity, ys: string, ms: string, ds: string, y: int, m: Month, day: Day)
    requires Split(key, '-') == match g
                                case Year => [ys]
                                case Month => [ys, ms]
                                case Day => [ys, ms, ds]
    requires ParseInt(ys) == Some(y) && ParseInt(ms) == Some(m as int) && ParseInt(ds) == Some(day as int)
    ensures ParseBucketKey(key, g) == Some(FieldDate(y, m - 1, day, g))
  {
    PartsRead(key, g, ys, ms, ds, y, m, day);
    ReadArgsOfNumbers(key, g, y, m, day);
    ParseOfFieldArgs(key, g, y, m - 1, day);
  }

  /** A key for a year of 0 or more reads back as the date of its fields. */
  lemma ParseOfFields(d: Date, g: Granularity)
    requires d.year >= 0
    ensures ParseBucketKey(BucketKey(Some(d), g), g) == Some(match g
                                                             case Year => NewDate(d.year, 0, 1)
                                                             case Month => NewDate(d.year, d.month - 1, 1)
                                                             case Day => NewDate(d.year, d.month - 1, d.day))
  {
    KeySplit(d, g);
    FieldsHaveNoDash(d);
    ParseOfSplit(BucketKey(Some(d), g), g, IntToString(d.year), Pad2(d.month), Pad2(d.day), d.year, d.month, d.day);
    FieldDateCases(d.year, d.month - 1, d.day, g);
  }

  /** Reading back a bucket key gives the first day of the bucket, for any
      date from year 100 on. */
  lemma BucketKeyRoundTrip(d: Date, g: Granularity)
    requires IsCalendarDate(d) && d.year >= 100
    ensures ParseBucketKey(BucketKey(Some(d), g), g) == Some(FirstOfBucket(d, g))
  {
    ParseOfFields(d, g);
    match g
    case Year => NewDateOfCalendarDate(d.year, 1, 1);
    case Month => NewDateOfCalendarDate(d.year, d.month, 1);
    case Day => NewDateOfCalendarDate(d.year, d.month, d.day);
  }

  /** A leap year from 1 to 99 is still a leap year 1900 years on. */
  lemma LeapYearMoved(y: int)
    requires 1 <= y <= 99 && IsLeapYear(y)
    ensures IsLeapYear(1900 + y)
  {
    assert (1900 + y) % 4 == y % 4;
    assert (1900 + y) % 100 == y;
  }

  /** An existing day of years 1 to 99 also exists 1900 years on. */
  lemma DayExistsMoved(d: Date)
    requires IsCalendarDate(d) && 1 <= d.year <= 99
    ensures d.day <= DaysInMonth(1900 + d.year, d.month)
  {
    if d.month == 2 && d.day == 29 {
      LeapYearMoved(d.year);
    }
  }

  /** `new Date` reads years 0 to 99 as 1900 to 1999, so a bucket of such a
      year is read back in the twentieth century (29 February of year 0,
      which 1900 lacks, aside). */
  lemma TwoDigitYearRead(d: Date, g: Granularity)
    requires IsCalendarDate(d) && 0 <= d.year < 100 && !(d.year == 0 && d.month == 2 && d.day == 29)
    ensures ParseBucketKey(BucketKey(Some(d), g), g) == Some(FirstOfBucket(d, g).(year := 1900 + d.year))
  {
    ParseOfFields(d, g);
    if d.year > 0 {
      DayExistsMoved(d);
    }
    match g
    case Year => NewDateOfCalendarDate(d.year, 1, 1);
    case Month => NewDateOfCalendarDate(d.year, d.month, 1);
    case Day => NewDateOfCalendarDate(d.year, d.month, d.day);
  }

  /** A key for a year before 0 starts with "-", so its first part is empty
      and it reads back as no date. */
  lemma NegativeYearUnread(d: Date, g: Granularity)
    requires d.year < 0
    ensures ParseBucketKey(BucketKey(Some(d), g), g).None?
  {
    var digits := NatToString(-d.year);
    DigitsHaveNoDash(digits);
    var rest := BucketKey(Some(d), g)[1..];
    assert BucketKey(Some(d), g) == "" + ['-'] + rest;
    SplitAtSeparator("", '-', rest);
    assert DigitPrefix("") == "";
  }

  /** A key is canonical when it reads back as a date that is written as the
      same key again. */
  predicate Canonical(key: string, g: Granularity) {
    var d := ParseBucketKey(key, g);
    d.Some? ==> BucketKey(d, g) == key
  }

  /** A bucket key reads back as a date exactly when its year is 0 or more. */
  lemma KeyReadsBack(d: Date, g: Granularity)
    ensures ParseBucketKey(BucketKey(Some(d), g), g).Some? <==> d.year >= 0
  {
    if d.year >= 0 {
      ParseOfFields(d, g);
    } else {
      NegativeYearUnread(d, g);
    }
  }

  /** Keys of calendar dates outside the years 0 to 99 are canonical. */
  lemma KeyCanonical(d: Date, g: Granularity)
    requires IsCalendarDate(d) && !(0 <= d.year < 100)
    ensures Canonical(BucketKey(Some(d), g), g)
  {
    if d.year < 0 {
      NegativeYearUnread(d, g);
    } else {
      BucketKeyRoundTrip(d, g);
    }
  }

  // ---------------------------------------------------------------- buildTimeSeriesPoints

  /** A bucket being filled: `{ key, pieces, photos }`. */
  datatype Bucket = Bucket(key: string, pieces: Number, photos: nat)

  /** A chart point: a bucket together with the date its key reads back as. */
  datatype Point = Point(key: string, pieces: Number, photos: nat, date: Date)

  /** The result of `buildTimeSeriesPoints`. */
  datatype Series = Series(granularity: Granularity, points: seq<Point>)

  function BucketKeyOf(b: Bucket): string {
    b.key
  }

  function BucketPhotos(b: Bucket): nat {
    b.photos
  }

  function BucketPieces(b: Bucket): Number {
    b.pieces
  }

  function PointKey(p: Point): string {
    p.key
  }

  function PointPhotos(p: Point): nat {
    p.photos
  }

  function PointPieces(p: Point): Number {
    p.pieces
  }

  /** The loop counts a record when it has a date, and the date is not in
      1970 (a year that usually stands for a zero timestamp). */
  function InChart(dateOf: Value -> Option<Date>): Value -> bool {
    (m: Value) => dateOf(m).Some? && dateOf(m).value.year != 1970
  }

  /** One more record in a bucket: `(byKey.get(key) || { key, pieces: 0, photos: 0 })`
      with its pieces and photo count increased. */
  function AddToBucket(key: string, pieces: Number): Option<Bucket> -> Bucket {
    (current: Option<Bucket>) =>
      var row := if current.Some? then current.value else Bucket(key, Zero, 0);
      row.(pieces := Add(row.pieces, pieces), photos := row.photos + 1)
  }

  /** The bucketing loop of `buildTimeSeriesPoints`, over the records in key
      order, for given date and pieces accessors. */
  function BucketLoop(photos: seq<Value>, dateOf: Value -> Option<Date>, pieces: Value -> Number,
                      g: Granularity): Table<string, Bucket>
    decreases |photos|
  {
    if |photos| == 0 then []
    else
      var n := |photos| - 1;
      var rows := BucketLoop(photos[..n], dateOf, pieces, g);
      var m := photos[n];
      if !InChart(dateOf)(m) then rows
      else
        var key := BucketKey(dateOf(m), g);
        if key == "" then rows else Upsert(rows, key, AddToBucket(key, pieces(m)))
  }

  /** Each bucket paired with the date its key reads back as (by `read`);
      buckets whose key does not read back are dropped. */
  function Dated(buckets: seq<Bucket>, read: string -> Option<Date>): (r: seq<Point>)
    ensures |r| <= |buckets|
  {
    if |buckets| == 0 then []
    else
      var b := buckets[0];
      var rest := Dated(buckets[1..], read);
      match read(b.key)
      case None => rest
      case Some(date) => [Point(b.key, b.pieces, b.photos, date)] + rest
  }

  /** `a.date - b.date <= 0`. */
  predicate DateLe(a: Date, b: Date) {
    a.year < b.year || (a.year == b.year && (a.month < b.month || (a.month == b.month && a.day <= b.day)))
  }

  function ByDate(): (Point, Point) -> bool {
    (a: Point, b: Point) => DateLe(a.date, b.date)
  }

  /** `parseBucketKeyToDate` at granularity `g`. */
  function ReadKey(g: Granularity): string -> Option<Date> {
    (key: string) => ParseBucketKey(key, g)
  }

  function PhotoDateOf(parse: DateParser): Value -> Option<Date> {
    (m: Value) => PhotoDate(m, parse)
  }

  /** `buildTimeSeriesPoints(filtered, filters)`. */
  function BuildTimeSeriesPoints(filtered: Photos, filters: Value, parse: DateParser): Series {
    var g := ChooseTimeGranularity(filters);
    var buckets := ValuesOf(BucketLoop(ValuesOf(filtered), PhotoDateOf(parse), Pieces, g));
    Series(g, SortBy(Dated(buckets, ReadKey(g)), ByDate()))
  }

  // ---------------------------------------------------------------- loop facts

  /** A record without a date, or dated 1970, changes no bucket. */
  lemma SkippedRecordIgnored(photos: seq<Value>, dateOf: Value -> Option<Date>, pieces: Value -> Number,
                             g: Granularity, m: Value)
    requires !InChart(dateOf)(m)
    ensures BucketLoop(photos + [m], dateOf, pieces, g) == BucketLoop(photos, dateOf, pieces, g)
  {
    assert (photos + [m])[..|photos|] == photos;
  }

  lemma {:induction false} LoopKeyed(photos: seq<Value>, dateOf: Value -> Option<Date>, pieces: Value -> Number,
                                     g: Granularity)
    ensures UniqueKeys(BucketLoop(photos, dateOf, pieces, g))
    ensures KeyedBy(BucketLoop(photos, dateOf, pieces, g), BucketKeyOf)
    decreases |photos|
  {
    if |photos| > 0 {
      var n := |photos| - 1;
      var m := photos[n];
      LoopKeyed(photos[..n], dateOf, pieces, g);
      if InChart(dateOf)(m) {
        var rows := BucketLoop(photos[..n], dateOf, pieces, g);
        var key := BucketKey(dateOf(m), g);
        UpsertKeepsUnique(rows, key, AddToBucket(key, pieces(m)));
        UpsertKeepsKeyed(rows, key, AddToBucket(key, pieces(m)), BucketKeyOf);
      }
    }
  }

  /** One step of the loop: a charted record is added to the bucket under its
      key, any other record is skipped. */
  lemma LoopStep(prefix: seq<Value>, m: Value, dateOf: Value -> Option<Date>, pieces: Value -> Number,
                 g: Granularity)
    ensures var rows := BucketLoop(prefix, dateOf, pieces, g);
            var key := BucketKey(dateOf(m), g);
            BucketLoop(prefix + [m], dateOf, pieces, g) ==
              if InChart(dateOf)(m) then Upsert(rows, key, AddToBucket(key, pieces(m))) else rows
  {
    assert (prefix + [m])[..|prefix|] == prefix;
  }

  /** The photo counts of the buckets add up to the number of charted records. */
  lemma {:induction false} LoopPhotoTotal(photos: seq<Value>, dateOf: Value -> Option<Date>, pieces: Value -> Number,
                                          g: Granularity)
    ensures NatTotal(BucketLoop(photos, dateOf, pieces, g), BucketPhotos) == Count(photos, InChart(dateOf))
    decreases |photos|
  {
    if |photos| > 0 {
      var n := |photos| - 1;
      var prefix, m := photos[..n], photos[n];
      var p := InChart(dateOf);
      assert photos == prefix + [m];
      LoopPhotoTotal(prefix, dateOf, pieces, g);
      LoopStep(prefix, m, dateOf, pieces, g);
      CountSnoc(prefix, m, p);
      if p(m) {
        var rows := BucketLoop(prefix, dateOf, pieces, g);
        var key := BucketKey(dateOf(m), g);
        NatTotalUpsert(rows, key, AddToBucket(key, pieces(m)), BucketPhotos, 1);
      }
    }
  }

  /** The pieces of the buckets add up to the pieces of the charted records. */
  lemma {:induction false} LoopPieceTotal(photos: seq<Value>, dateOf: Value -> Option<Date>, pieces: Value -> Number,
                                          g: Granularity)
    ensures Total(BucketLoop(photos, dateOf, pieces, g), BucketPieces) == Sum(Filter(photos, InChart(dateOf)), pieces)
    decreases |photos|
  {
    if |photos| > 0 {
      var n := |photos| - 1;
      var prefix, m := photos[..n], photos[n];
      var p := InChart(dateOf);
      assert photos == prefix + [m];
      LoopPieceTotal(prefix, dateOf, pieces, g);
      LoopStep(prefix, m, dateOf, pieces, g);
      FilterAppend(prefix, [m], p);
      if p(m) {
        var rows := BucketLoop(prefix, dateOf, pieces, g);
        var key := BucketKey(dateOf(m), g);
        AddZero(pieces(m));
        TotalUpsert(rows, key, AddToBucket(key, pieces(m)), BucketPieces, pieces(m), (b: Bucket) => true);
        assert Filter([m], p) == [m];
        SumSnoc(Filter(prefix, p), m, pieces);
      } else {
        assert Filter([m], p) == [];
        assert Filter(prefix, p) + [] == Filter(prefix, p);
      }
    }
  }


  function KeyReads(g: Granularity): Bucket -> bool {
    (b: Bucket) => ParseBucketKey(b.key, g).Some?
  }

  function CanonicalBucket(g: Granularity): Bucket -> bool {
    (b: Bucket) => Canonical(b.key, g)
  }

  /** With no counted record before year 0, every bucket key reads back. */
  lemma {:induction false} LoopKeysRead(photos: seq<Value>, dateOf: Value -> Option<Date>, pieces: Value -> Number,
                                        g: Granularity)
    requires forall i :: 0 <= i < |photos| && InChart(dateOf)(photos[i]) ==> dateOf(photos[i]).value.year >= 0
    ensures AllValues(BucketLoop(photos, dateOf, pieces, g), KeyReads(g))
    decreases |photos|
  {
    if |photos| > 0 {
      var n := |photos| - 1;
      var m := photos[n];
      LoopKeysRead(photos[..n], dateOf, pieces, g);
      if InChart(dateOf)(m) {
        var key := BucketKey(dateOf(m), g);
        KeyReadsBack(dateOf(m).value, g);
        UpsertKeepsValues(BucketLoop(photos[..n], dateOf, pieces, g), key, AddToBucket(key, pieces(m)), KeyReads(g));
      }
    }
  }

  /** With every counted record on a calendar date outside the years 0 to 99,
      every bucket key is canonical. */
  lemma {:induction false} LoopKeysCanonical(photos: seq<Value>, dateOf: Value -> Option<Date>,
                                             pieces: Value -> Number, g: Granularity)
    requires forall i :: 0 <= i < |photos| && InChart(dateOf)(photos[i]) ==>
               IsCalendarDate(dateOf(photos[i]).value) && !(0 <= dateOf(photos[i]).value.year < 100)
    ensures AllValues(BucketLoop(photos, dateOf, pieces, g), CanonicalBucket(g))
    decreases |photos|
  {
    if |photos| > 0 {
      var n := |photos| - 1;
      var m := photos[n];
      LoopKeysCanonical(photos[..n], dateOf, pieces, g);
      if InChart(dateOf)(m) {
        var key := BucketKey(dateOf(m), g);
        KeyCanonical(dateOf(m).value, g);
        UpsertKeepsValues(BucketLoop(photos[..n], dateOf, pieces, g), key, AddToBucket(key, pieces(m)), CanonicalBucket(g));
      }
    }
  }

  // ---------------------------------------------------------------- points

  /** `p` comes from one of the buckets and carries the date its key reads back as. */
  predicate PointFrom(buckets: seq<Bucket>, read: string -> Option<Date>, p: Point) {
    Bucket(p.key, p.pieces, p.photos) in buckets && read(p.key) == Some(p.date)
  }

  lemma {:induction false} DatedFrom(buckets: seq<Bucket>, read: string -> Option<Date>)
    ensures forall i :: 0 <= i < |Dated(buckets, read)| ==> PointFrom(buckets, read, Dated(buckets, read)[i])
    decreases |buckets|
  {
    if |buckets| > 0 {
      DatedFrom(buckets[1..], read);
      var r, rest := Dated(buckets, read), Dated(buckets[1..], read);
      forall i | 0 <= i < |r| ensures PointFrom(buckets, read, r[i]) {
        if r != rest && i > 0 {
          assert r[i] == rest[i - 1];
        }
        var p := r[i];
        var b := Bucket(p.key, p.pieces, p.photos);
        assert b in buckets[1..] ==> b in buckets;
      }
    }
  }

  lemma {:induction false} DatedDistinct(buckets: seq<Bucket>, read: string -> Option<Date>)
    requires DistinctBy(buckets, BucketKeyOf)
    ensures DistinctBy(Dated(buckets, read), PointKey)
    decreases |buckets|
  {
    if |buckets| > 0 {
      DatedDistinct(buckets[1..], read);
      var r, rest := Dated(buckets, read), Dated(buckets[1..], read);
      if r != rest {
        DatedFrom(buckets[1..], read);
        forall j | 0 < j < |r| ensures r[0].key != r[j].key {
          var p := rest[j - 1];
          assert r[j] == p;
          var k :| 0 <= k < |buckets[1..]| && buckets[1..][k] == Bucket(p.key, p.pieces, p.photos);
          assert buckets[k + 1].key == p.key;
        }
      }
    }
  }

  /** When every key reads back, the points keep every bucket's photos and pieces. */
  lemma {:induction false} DatedKeepsAll(buckets: seq<Bucket>, read: string -> Option<Date>)
    requires forall i :: 0 <= i < |buckets| ==> read(buckets[i].key).Some?
    ensures NatSum(Dated(buckets, read), PointPhotos) == NatSum(buckets, BucketPhotos)
    ensures Sum(Dated(buckets, read), PointPieces) == Sum(buckets, BucketPieces)
    decreases |buckets|
  {
    if |buckets| > 0 {
      DatedKeepsAll(buckets[1..], read);
      var r := Dated(buckets, read);
      assert r[1..] == Dated(buckets[1..], read);
    }
  }

  lemma ByDatePreorder()
    ensures TotalPreorder(ByDate())
  {
  }

  /** Sorting the dated buckets: date order, distinct keys, each point from a bucket. */
  lemma SortedPoints(buckets: seq<Bucket>, read: string -> Option<Date>)
    requires DistinctBy(buckets, BucketKeyOf)
    ensures var points := SortBy(Dated(buckets, read), ByDate());
            && (forall i, j :: 0 <= i < j < |points| ==> DateLe(points[i].date, points[j].date))
            && DistinctBy(points, PointKey)
            && (forall i :: 0 <= i < |points| ==> PointFrom(buckets, read, points[i]))
  {
    var dated := Dated(buckets, read);
    var points := SortBy(dated, ByDate());
    DatedDistinct(buckets, read);
    SortByDistinct(dated, ByDate(), PointKey);
    ByDatePreorder();
    SortBySorted(dated, ByDate());
    forall i, j | 0 <= i < j < |points| ensures DateLe(points[i].date, points[j].date) {
      SortedPairs(points, ByDate(), i, j);
    }
    DatedFrom(buckets, read);
    forall i | 0 <= i < |points| ensures PointFrom(buckets, read, points[i]) {
      assert points[i] in multiset(dated);
      var k :| 0 <= k < |dated| && dated[k] == points[i];
    }
  }

  /** The buckets of the loop over the records of `filtered`. */
  function SeriesBuckets(filtered: Photos, parse: DateParser, g: Granularity): seq<Bucket> {
    ValuesOf(BucketLoop(ValuesOf(filtered), PhotoDateOf(parse), Pieces, g))
  }

  lemma SeriesIsSorted(filtered: Photos, filters: Value, parse: DateParser)
    ensures var g := ChooseTimeGranularity(filters);
            BuildTimeSeriesPoints(filtered, filters, parse) ==
              Series(g, SortBy(Dated(SeriesBuckets(filtered, parse, g), ReadKey(g)), ByDate()))
  {
  }

  /** The loop's buckets have distinct keys. */
  lemma SeriesBucketsDistinct(filtered: Photos, parse: DateParser, g: Granularity)
    ensures DistinctBy(SeriesBuckets(filtered, parse, g), BucketKeyOf)
  {
    var t := BucketLoop(ValuesOf(filtered), PhotoDateOf(parse), Pieces, g);
    LoopKeyed(ValuesOf(filtered), PhotoDateOf(parse), Pieces, g);
    KeyedValuesDistinct(t, BucketKeyOf);
  }

  /** Points in date order, under distinct keys, each carrying the date its
      key reads back as at granularity `g`. */
  predicate OrderedPoints(points: seq<Point>, g: Granularity) {
    && (forall i, j :: 0 <= i < j < |points| ==> DateLe(points[i].date, points[j].date))
    && DistinctBy(points, PointKey)
    && (forall i :: 0 <= i < |points| ==> ParseBucketKey(points[i].key, g) == Some(points[i].date))
  }

  /** The sorted points of buckets with distinct keys, read at granularity `g`. */
  lemma PointsRead(buckets: seq<Bucket>, g: Granularity)
    requires DistinctBy(buckets, BucketKeyOf)
    ensures OrderedPoints(SortBy(Dated(buckets, ReadKey(g)), ByDate()), g)
  {
    var points := SortBy(Dated(buckets, ReadKey(g)), ByDate());
    SortedPoints(buckets, ReadKey(g));
    forall i | 0 <= i < |points| ensures ParseBucketKey(points[i].key, g) == Some(points[i].date) {
      assert PointFrom(buckets, ReadKey(g), points[i]);
    }
  }

  /** The points are in date order, under distinct keys, each carrying the
      date its key reads back as; the granularity is the one the filters choose. */
  lemma TimeSeriesOrdered(filtered: Photos, filters: Value, parse: DateParser)
    ensures var s := BuildTimeSeriesPoints(filtered, filters, parse);
            s.granularity == ChooseTimeGranularity(filters) && OrderedPoints(s.points, s.granularity)
  {
    var g := ChooseTimeGranularity(filters);
    SeriesIsSorted(filtered, filters, parse);
    SeriesBucketsDistinct(filtered, parse, g);
    PointsRead(SeriesBuckets(filtered, parse, g), g);
  }

  /** The records the chart counts: dated, and not in 1970. */
  function Charted(parse: DateParser): Value -> bool {
    InChart(PhotoDateOf(parse))
  }

  /** With no counted record dated before year 0, the points hold one photo
      per counted record, and the pieces of exactly those records; each point
      holds the photos and pieces of the records under its own key. */
  lemma TimeSeriesTotals(filtered: Photos, filters: Value, parse: DateParser)
    requires forall i :: 0 <= i < |filtered| && Charted(parse)(filtered[i].1) ==>
               PhotoDate(filtered[i].1, parse).value.year >= 0
    ensures var s := BuildTimeSeriesPoints(filtered, filters, parse);
            && NatSum(s.points, PointPhotos) == Count(ValuesOf(filtered), Charted(parse))
            && Sum(s.points, PointPieces) == Sum(Filter(ValuesOf(filtered), Charted(parse)), Pieces)
            && (forall i :: 0 <= i < |s.points| ==>
                  var p := InBucket(PhotoDateOf(parse), s.granularity, s.points[i].key);
                  && s.points[i].photos == Count(ValuesOf(filtered), p)
                  && s.points[i].pieces == Sum(Filter(ValuesOf(filtered), p), Pieces))
  {
    PointCounts(filtered, filters, parse);
    var g := ChooseTimeGranularity(filters);
    var records := ValuesOf(filtered);
    var t := BucketLoop(records, PhotoDateOf(parse), Pieces, g);
    var buckets := ValuesOf(t);
    var dated := Dated(buckets, ReadKey(g));
    var points := SortBy(dated, ByDate());
    LoopPhotoTotal(records, PhotoDateOf(parse), Pieces, g);
    LoopPieceTotal(records, PhotoDateOf(parse), Pieces, g);
    LoopKeysRead(records, PhotoDateOf(parse), Pieces, g);
    DatedKeepsAll(buckets, ReadKey(g));
    NatTotalOfValues(t, BucketPhotos);
    TotalOfValues(t, BucketPieces);
    NatSumPermutation(dated, points, PointPhotos);
    SumPermutation(dated, points, PointPieces);
  }

  // ---------------------------------------------------------------- one bucket

  /** The loop adds the record to bucket `k`: it is charted and its date
      falls under the (non-empty) key `k`. */
  function InBucket(dateOf: Value -> Option<Date>, g: Granularity, k: string): Value -> bool {
    (m: Value) => InChart(dateOf)(m) && k != "" && BucketKey(dateOf(m), g) == k
  }

  /** The bucket the loop builds under key `k`, followed on its own. */
  function BucketOf(photos: seq<Value>, dateOf: Value -> Option<Date>, pieces: Value -> Number,
                    g: Granularity, k: string): Option<Bucket>
    decreases |photos|
  {
    if |photos| == 0 then None
    else
      var n := |photos| - 1;
      var m := photos[n];
      var before := BucketOf(photos[..n], dateOf, pieces, g, k);
      if InBucket(dateOf, g, k)(m) then Some(AddToBucket(k, pieces(m))(before)) else before
  }

  function PhotosSoFar(b: Option<Bucket>): nat {
    if b.Some? then b.value.photos else 0
  }

  function PiecesSoFar(b: Option<Bucket>): Number {
    if b.Some? then b.value.pieces else Zero
  }

  lemma {:induction false} LookupIsBucketOf(photos: seq<Value>, dateOf: Value -> Option<Date>, pieces: Value -> Number,
                                            g: Granularity, k: string)
    ensures Lookup(BucketLoop(photos, dateOf, pieces, g), k) == BucketOf(photos, dateOf, pieces, g, k)
    decreases |photos|
  {
    if |photos| > 0 {
      var n := |photos| - 1;
      var m := photos[n];
      LookupIsBucketOf(photos[..n], dateOf, pieces, g, k);
      var key := BucketKey(dateOf(m), g);
      if InChart(dateOf)(m) && key != "" && key != k {
        UpsertOthers(BucketLoop(photos[..n], dateOf, pieces, g), key, AddToBucket(key, pieces(m)), k);
      }
    }
  }

  /** Bucket `k` holds one photo per record in it, and their pieces. */
  lemma {:induction false} BucketOfCounts(photos: seq<Value>, dateOf: Value -> Option<Date>, pieces: Value -> Number,
                                          g: Granularity, k: string)
    ensures PhotosSoFar(BucketOf(photos, dateOf, pieces, g, k)) == Count(photos, InBucket(dateOf, g, k))
    ensures PiecesSoFar(BucketOf(photos, dateOf, pieces, g, k)) == Sum(Filter(photos, InBucket(dateOf, g, k)), pieces)
    decreases |photos|
  {
    if |photos| > 0 {
      var n := |photos| - 1;
      var prefix, m := photos[..n], photos[n];
      var p := InBucket(dateOf, g, k);
      BucketOfCounts(prefix, dateOf, pieces, g, k);
      assert photos == prefix + [m];
      CountSnoc(prefix, m, p);
      FilterAppend(prefix, [m], p);
      if p(m) {
        assert Filter([m], p) == [m];
        SumSnoc(Filter(prefix, p), m, pieces);
      } else {
        assert Filter([m], p) == [];
        assert Filter(prefix, p) + [] == Filter(prefix, p);
      }
    }
  }

  /** Each point holds one photo per charted record whose date falls under
      its key, and the pieces of exactly those records. */
  lemma PointCounts(filtered: Photos, filters: Value, parse: DateParser)
    ensures var s := BuildTimeSeriesPoints(filtered, filters, parse);
            forall i :: 0 <= i < |s.points| ==>
              var p := InBucket(PhotoDateOf(parse), s.granularity, s.points[i].key);
              && s.points[i].photos == Count(ValuesOf(filtered), p)
              && s.points[i].pieces == Sum(Filter(ValuesOf(filtered), p), Pieces)
  {
    var g := ChooseTimeGranularity(filters);
    var points := BuildTimeSeriesPoints(filtered, filters, parse).points;
    forall i | 0 <= i < |points|
      ensures var p := InBucket(PhotoDateOf(parse), g, points[i].key);
              && points[i].photos == Count(ValuesOf(filtered), p)
              && points[i].pieces == Sum(Filter(ValuesOf(filtered), p), Pieces)
    {
      PointCount(filtered, filters, parse, i);
    }
  }

  lemma PointCount(filtered: Photos, filters: Value, parse: DateParser, i: int)
    requires 0 <= i < |BuildTimeSeriesPoints(filtered, filters, parse).points|
    ensures var g, pt := ChooseTimeGranularity(filters), BuildTimeSeriesPoints(filtered, filters, parse).points[i];
            var p := InBucket(PhotoDateOf(parse), g, pt.key);
            && pt.photos == Count(ValuesOf(filtered), p)
            && pt.pieces == Sum(Filter(ValuesOf(filtered), p), Pieces)
  {
    var g := ChooseTimeGranularity(filters);
    var records, dateOf := ValuesOf(filtered), PhotoDateOf(parse);
    var t := BucketLoop(records, dateOf, Pieces, g);
    var buckets := SeriesBuckets(filtered, parse, g);
    var pt := BuildTimeSeriesPoints(filtered, filters, parse).points[i];
    SeriesIsSorted(filtered, filters, parse);
    SeriesBucketsDistinct(filtered, parse, g);
    SortedPoints(buckets, ReadKey(g));
    assert PointFrom(buckets, ReadKey(g), pt);
    var b := Bucket(pt.key, pt.pieces, pt.photos);
    var m :| 0 <= m < |buckets| && buckets[m] == b;
    LoopKeyed(records, dateOf, Pieces, g);
    assert BucketKeyOf(t[m].1) == t[m].0;
    EntryIsLookup(t, m);
    LookupIsBucketOf(records, dateOf, Pieces, g, pt.key);
    BucketOfCounts(records, dateOf, Pieces, g, pt.key);
  }

  /** `a.date - b.date < 0`. */
  predicate DateLt(a: Date, b: Date) {
    DateLe(a, b) && a != b
  }

  /** No two points share a date, and each is earlier than the next. */
  predicate StrictlyAscending(points: seq<Point>) {
    forall i, j :: 0 <= i < j < |points| ==> DateLt(points[i].date, points[j].date)
  }

  /** Every counted record is on a calendar date outside the years 0 to 99. */
  predicate ChartedOnCalendar(filtered: Photos, parse: DateParser) {
    forall i :: 0 <= i < |filtered| && Charted(parse)(filtered[i].1) ==>
      IsCalendarDate(PhotoDate(filtered[i].1, parse).value) && !(0 <= PhotoDate(filtered[i].1, parse).value.year < 100)
  }

  /** With every counted record on a calendar date outside the years 0 to 99,
      no two points share a date, so the points are strictly ascending. */
  lemma TimeSeriesStrictlyAscending(filtered: Photos, filters: Value, parse: DateParser)
    requires ChartedOnCalendar(filtered, parse)
    ensures StrictlyAscending(BuildTimeSeriesPoints(filtered, filters, parse).points)
  {
    var g := ChooseTimeGranularity(filters);
    var buckets := SeriesBuckets(filtered, parse, g);
    assert StrictlyAscending(SortBy(Dated(buckets, ReadKey(g)), ByDate())) by {
      SeriesBucketsDistinct(filtered, parse, g);
      SeriesBucketsCanonical(filtered, parse, g);
      StrictPoints(buckets, g);
    }
    SeriesIsSorted(filtered, filters, parse);
  }

  /** Under the same condition, every bucket of the loop has a canonical key. */
  lemma SeriesBucketsCanonical(filtered: Photos, parse: DateParser, g: Granularity)
    requires ChartedOnCalendar(filtered, parse)
    ensures forall i :: 0 <= i < |SeriesBuckets(filtered, parse, g)| ==> Canonical(SeriesBuckets(filtered, parse, g)[i].key, g)
  {
    var records := ValuesOf(filtered);
    var t := BucketLoop(records, PhotoDateOf(parse), Pieces, g);
    var buckets := SeriesBuckets(filtered, parse, g);
    LoopKeysCanonical(records, PhotoDateOf(parse), Pieces, g);
    forall i | 0 <= i < |buckets| ensures Canonical(buckets[i].key, g) {
      assert CanonicalBucket(g)(t[i].1);
    }
  }

  /** Sorted points of buckets with distinct canonical keys have distinct dates. */
  lemma StrictPoints(buckets: seq<Bucket>, g: Granularity)
    requires DistinctBy(buckets, BucketKeyOf)
    requires forall i :: 0 <= i < |buckets| ==> Canonical(buckets[i].key, g)
    ensures StrictlyAscending(SortBy(Dated(buckets, ReadKey(g)), ByDate()))
  {
    var points := SortBy(Dated(buckets, ReadKey(g)), ByDate());
    SortedPoints(buckets, ReadKey(g));
    forall i, j | 0 <= i < j < |points| ensures DateLt(points[i].date, points[j].date) {
      PointKeyIsDateKey(buckets, g, points[i]);
      PointKeyIsDateKey(buckets, g, points[j]);
      assert PointKey(points[i]) != PointKey(points[j]);
    }
  }

  /** A point of a bucket with a canonical key is keyed by its own date. */
  lemma PointKeyIsDateKey(buckets: seq<Bucket>, g: Granularity, p: Point)
    requires forall i :: 0 <= i < |buckets| ==> Canonical(buckets[i].key, g)
    requires PointFrom(buckets, ReadKey(g), p)
    ensures BucketKey(Some(p.date), g) == p.key
  {
    var j :| 0 <= j < |buckets| && buckets[j] == Bucket(p.key, p.pieces, p.photos);
    assert Canonical(buckets[j].key, g);
    assert ReadKey(g)(p.key) == ParseBucketKey(p.key, g);
  }
}
