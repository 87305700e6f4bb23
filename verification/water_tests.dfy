/** The pure parts of the water-test tables: cell formatting, picking the
    result of a test record, newest-first ordering, type labels and the
    location cell of the coliforms table. */
module WaterTests {
  import opened Base
  import opened Text
  import opened Js
  import opened Sorting

  // ---------------------------------------------------------------- cell text

  const DefaultMaxLen: int := 180
  const Ellipsis: char := '…'

  /** The truncation rule of `safeJsonStringify`: text longer than `maxLen`
      keeps its first `max(0, maxLen - 1)` characters and gains "…". */
  function Truncate(out: string, maxLen: int): (r: string)
    ensures |out| <= maxLen ==> r == out
    ensures |out| > maxLen ==> |r| >= 1 && |r| - 1 <= |out| && r[|r| - 1] == Ellipsis && r[..|r| - 1] == out[..|r| - 1]
    ensures |out| > maxLen && maxLen >= 1 ==> |r| == maxLen
    ensures |out| > maxLen && maxLen < 1 ==> r == [Ellipsis]
  {
    if |out| <= maxLen then out
    else
      var k := if maxLen - 1 < 0 then 0 else maxLen - 1;
      out[..k] + [Ellipsis]
  }

  /** `safeJsonStringify(value, maxLen)`: a string as it is, anything else as
      its JSON text, truncated. `None` is the `TypeError` thrown when
      `JSON.stringify` returns `undefined` and its `length` is read. */
  function SafeJsonStringify(value: Value, maxLen: int): (r: Option<string>)
    ensures value.Str? ==> r == Some(Truncate(value.s, maxLen))
    ensures !value.Str? ==> r == (if JsonText(value).Some? then Some(Truncate(JsonText(value).value, maxLen)) else None)
    ensures r.None? <==> value.Undefined?
  {
    var out := if value.Str? then Some(value.s) else JsonText(value);
    if out.None? then None else Some(Truncate(out.value, maxLen))
  }

  /** The text is never longer than `maxLen` (for `maxLen >= 1`); it is the
      whole text when that fits, and otherwise a prefix of it ending in "…". */
  lemma SafeJsonStringifyBound(value: Value, maxLen: int)
    requires maxLen >= 1 && !value.Undefined?
    ensures var r := SafeJsonStringify(value, maxLen).value;
            var full := if value.Str? then value.s else JsonText(value).value;
            && |r| <= maxLen
            && (|full| <= maxLen <==> r == full)
            && (|full| > maxLen ==> r == full[..maxLen - 1] + [Ellipsis])
  {
  }

  /** `formatCellValue(value)`. */
  function FormatCellValue(value: Value): (r: string)
    ensures value.Null? || value.Undefined? ==> r == ""
    ensures value.Bool? ==> r == (if value.b then "true" else "false")
    ensures value.Str? ==> r == value.s
    ensures value.Num? ==> r == ToText(value)
    ensures value.Arr? || value.Obj? ==> |r| <= DefaultMaxLen
  {
    match value
    case Undefined => ""
    case Null => ""
    case Num(n) => NumberToString(n)
    case Bool(b) => if b then "true" else "false"
    case Str(s) => s
    case _ =>
      SafeJsonStringifyBound(value, DefaultMaxLen);
      SafeJsonStringify(value, DefaultMaxLen).value
  }

  /** `formatResultValue(type, value)`: a coliforms result is a yes/no. */
  function FormatResultValue(testType: string, value: Value): (r: string)
  {
    if testType == "coliforms" && value.Bool? then (if value.b then "Positive" else "Negative")
    else FormatCellValue(value)
  }

  /** Only a coliforms boolean is shown as Positive or Negative; every other
      result is formatted as a plain cell. */
  lemma FormatResultValueFacts(testType: string, value: Value)
    ensures testType == "coliforms" && value.Bool? ==>
              (FormatResultValue(testType, value) == "Positive" <==> value.b)
              && (FormatResultValue(testType, value) == "Negative" <==> !value.b)
    ensures !(testType == "coliforms" && value.Bool?) ==> FormatResultValue(testType, value) == FormatCellValue(value)
  {
  }

  // ---------------------------------------------------------------- result fields

  /** Where a test type stores its result: the value key and, for readings
      with units, the units key. */
  datatype ResultRule = ResultRule(valueKey: string, unitsKey: Option<string>)

  /** `WATER_TEST_RESULT_FIELDS[type]`. */
  function RuleFor(testType: string): Option<ResultRule> {
    match testType
    case "coliforms" => Some(ResultRule("coliforms", None))
    case "nitrate" => Some(ResultRule("nitrateReading", Some("nitrateUnits")))
    case "nitrite" => Some(ResultRule("nitriteReading", Some("nitriteUnits")))
    case "ph" => Some(ResultRule("ph", None))
    case "phosphate" => Some(ResultRule("phosphateReading", Some("phosphateUnits")))
    case "temperature" => Some(ResultRule("temperature", None))
    case _ => None
  }

  /** `{ value, units }`. */
  datatype PrimaryResult = PrimaryResult(value: Value, units: Value)

  /** `/reading$/i`. */
  predicate EndsWithReading(k: string) {
    EndsWith(ToLower(k), "reading")
  }

  /** `/reading/i`. */
  predicate MentionsReading(k: string) {
    Contains(ToLower(k), "reading")
  }

  /** `keys.find(p)`: the first key satisfying `p`. */
  function FindFirst(keys: seq<string>, p: string -> bool): (r: Option<string>)
    ensures r.Some? ==> r.value in keys && p(r.value)
    ensures r.None? <==> forall i :: 0 <= i < |keys| ==> !p(keys[i])
    ensures r.Some? ==> exists i :: 0 <= i < |keys| && keys[i] == r.value && forall j :: 0 <= j < i ==> !p(keys[j])
  {
    if |keys| == 0 then None
    else if p(keys[0]) then Some(keys[0])
    else
      var rest := FindFirst(keys[1..], p);
      assert rest.Some? ==> exists i :: 0 <= i < |keys| && keys[i] == rest.value && forall j :: 0 <= j < i ==> !p(keys[j]) by {
        if rest.Some? {
          var i :| 0 <= i < |keys[1..]| && keys[1..][i] == rest.value && forall j :: 0 <= j < i ==> !p(keys[1..][j]);
          assert keys[i + 1] == rest.value;
        }
      }
      rest
  }

  /** `getPrimaryResult(type, record)`. */
  function GetPrimaryResult(testType: string, record: Value): PrimaryResult {
    var rule := RuleFor(testType);
    var value := if rule.Some? then Get(record, rule.value.valueKey) else Undefined;
    var units := if rule.Some? && rule.value.unitsKey.Some? then Get(record, rule.value.unitsKey.value) else Undefined;
    if !value.Undefined? then PrimaryResult(value, units)
    else
      var keys := Keys(record);
      var readingKey := Or(OptionText(FindFirst(keys, EndsWithReading)), OptionText(FindFirst(keys, MentionsReading)));
      if Truthy(readingKey) then PrimaryResult(Get(record, readingKey.s), Undefined)
      else if testType != "" && Truthy(record) && HasOwn(record, testType) then PrimaryResult(Get(record, testType), Undefined)
      else PrimaryResult(Undefined, Undefined)
  }

  /** A found key as a value, `undefined` when none was found. */
  function OptionText(k: Option<string>): (v: Value)
    ensures k.Some? ==> v == Str(k.value)
    ensures k.None? ==> v == Undefined
  {
    if k.Some? then Str(k.value) else Undefined
  }

  /** The configured field wins whenever it is present; then the first key
      ending in "reading", then the first key containing it, then a key equal
      to the type; otherwise there is no result. Only the configured field
      comes with units. */
  lemma PrimaryResultOrder(testType: string, record: Value)
    ensures var r := GetPrimaryResult(testType, record);
            var rule := RuleFor(testType);
            var configured := if rule.Some? then Get(record, rule.value.valueKey) else Undefined;
            var ending := FindFirst(Keys(record), EndsWithReading);
            var mentioning := FindFirst(Keys(record), MentionsReading);
            && (!configured.Undefined? ==>
                  r.value == configured
                  && r.units == (if rule.value.unitsKey.Some? then Get(record, rule.value.unitsKey.value) else Undefined))
            && (configured.Undefined? && ending.Some? ==> r == PrimaryResult(Get(record, ending.value), Undefined))
            && (configured.Undefined? && ending.None? && mentioning.Some? ==>
                  r == PrimaryResult(Get(record, mentioning.value), Undefined))
            && (configured.Undefined? && mentioning.None? ==>
                  r == if testType != "" && HasOwn(record, testType) then PrimaryResult(Get(record, testType), Undefined)
                       else PrimaryResult(Undefined, Undefined))
  {
    var ending := FindFirst(Keys(record), EndsWithReading);
    var mentioning := FindFirst(Keys(record), MentionsReading);
    if ending.Some? {
      assert |ending.value| >= |"reading"|;
    } else if mentioning.Some? {
      ContainsLength(ToLower(mentioning.value), "reading");
    }
    if ending.Some? && mentioning.None? {
      EndsWithContains(ToLower(ending.value), "reading");
    }
  }

  lemma ContainsLength(s: string, t: string)
    requires Contains(s, t)
    ensures |s| >= |t|
  {
  }

  lemma EndsWithContains(s: string, t: string)
    requires EndsWith(s, t)
    ensures Contains(s, t)
  {
    assert OccursAt(s, t, |s| - |t|);
  }

  // ---------------------------------------------------------------- newest first

  /** `Number(records[id]?.dateTime) || 0`. */
  function DateTimeOf(records: Value, id: string): (n: Number)
    ensures !n.NaN?
  {
    var n := ToNumber(Get(Get(records, id), "dateTime"));
    if Truthy(Num(n)) then n else Zero
  }

  /** The comparator of `getSortedRecordIdsByNewest`, as "`cmp(a, b) <= 0`":
      a different time orders by `bt - at`, an equal one by
      `String(b).localeCompare(String(a))`. */
  function NewestLe(records: Value): (string, string) -> bool {
    (a: string, b: string) =>
      var at, bt := DateTimeOf(records, a), DateTimeOf(records, b);
      if !NumEq(bt, at) then Le(Sub(bt, at), Zero) else LexLe(b, a)
  }

  /** `getSortedRecordIdsByNewest(records)`. */
  function SortedRecordIdsByNewest(records: Value): seq<string> {
    SortBy(Keys(records), NewestLe(records))
  }

  /** For two different times, `bt - at <= 0` means `bt < at`. */
  lemma DifferenceSign(at: Number, bt: Number)
    requires !at.NaN? && !bt.NaN? && !NumEq(bt, at)
    ensures Le(Sub(bt, at), Zero) <==> Lt(bt, at)
  {
    if at.Fin? && bt.Fin? {
      SubSign(bt, at);
      ValSign(Sub(at, bt));
      SubSign(at, bt);
      ValSign(Sub(bt, at));
    }
  }

  /** The comparator means: a later time first, and for equal times the
      larger id first. */
  lemma NewestLeMeaning(records: Value, a: string, b: string)
    ensures var at, bt := DateTimeOf(records, a), DateTimeOf(records, b);
            NewestLe(records)(a, b) <==> Lt(bt, at) || (NumEq(at, bt) && LexLe(b, a))
  {
    var at, bt := DateTimeOf(records, a), DateTimeOf(records, b);
    if !NumEq(bt, at) {
      DifferenceSign(at, bt);
    }
  }

  lemma NewestLePreorder(records: Value)
    ensures TotalPreorder(NewestLe(records))
  {
    var le := NewestLe(records);
    forall a, b ensures le(a, b) || le(b, a) {
      NewestLeMeaning(records, a, b);
      NewestLeMeaning(records, b, a);
      LexLeTotalOrder(a, b, b);
      NumOrderAgrees(DateTimeOf(records, a), DateTimeOf(records, b));
      NumOrderAgrees(DateTimeOf(records, b), DateTimeOf(records, a));
    }
    forall a, b, c | le(a, b) && le(b, c) ensures le(a, c) {
      var at, bt, ct := DateTimeOf(records, a), DateTimeOf(records, b), DateTimeOf(records, c);
      NewestLeMeaning(records, a, b);
      NewestLeMeaning(records, b, c);
      NewestLeMeaning(records, a, c);
      LexLeTotalOrder(c, b, a);
      NumOrderAgrees(at, bt);
      NumOrderAgrees(bt, ct);
      NumOrderAgrees(at, ct);
      NumOrderAgrees(bt, at);
      NumOrderAgrees(ct, bt);
      NumOrderAgrees(ct, at);
      NumOrderTotalPreorder(ct, bt, at);
      NumOrderTotalPreorder(at, bt, ct);
    }
  }

  /** The ids are the record keys reordered, newest first, and equal times
      with the larger id first. */
  lemma SortedRecordIdsFacts(records: Value)
    ensures var ids := SortedRecordIdsByNewest(records);
            && multiset(ids) == multiset(Keys(records))
            && forall i, j :: 0 <= i < j < |ids| ==>
                 var ti, tj := DateTimeOf(records, ids[i]), DateTimeOf(records, ids[j]);
                 Le(tj, ti) && (NumEq(ti, tj) ==> LexLe(ids[j], ids[i]))
  {
    var ids := SortedRecordIdsByNewest(records);
    var le := NewestLe(records);
    NewestLePreorder(records);
    SortBySorted(Keys(records), le);
    forall i, j | 0 <= i < j < |ids|
      ensures var ti, tj := DateTimeOf(records, ids[i]), DateTimeOf(records, ids[j]);
              Le(tj, ti) && (NumEq(ti, tj) ==> LexLe(ids[j], ids[i]))
    {
      SortedPairs(ids, le, i, j);
      NewestLeMeaning(records, ids[i], ids[j]);
    }
  }

  // ---------------------------------------------------------------- labels

  /** `WATER_TEST_TYPES`: each type key with its label. */
  const WaterTestTypes: seq<(string, string)> := [
    ("coliforms", "Coliforms"), ("nitrate", "Nitrate"), ("nitrite", "Nitrite"),
    ("ph", "pH"), ("phosphate", "Phosphate"), ("temperature", "Temperature")
  ]

  /** `getWaterTestLabel(type)`: the label of the first entry with that key,
      or the type itself. */
  function WaterTestLabel(testType: string): string {
    LabelIn(WaterTestTypes, testType)
  }

  function LabelIn(types: seq<(string, string)>, testType: string): (r: string)
    ensures (exists i :: 0 <= i < |types| && types[i].0 == testType) ==> (testType, r) in types
    ensures (forall i :: 0 <= i < |types| ==> types[i].0 != testType) ==> r == testType
  {
    if |types| == 0 then testType
    else if types[0].0 == testType then types[0].1
    else
      var r := LabelIn(types[1..], testType);
      assert (exists i :: 0 <= i < |types| && types[i].0 == testType) ==> (testType, r) in types by {
        if exists i :: 0 <= i < |types| && types[i].0 == testType {
          var i :| 0 <= i < |types| && types[i].0 == testType;
          assert types[1..][i - 1] == types[i];
        }
      }
      r
  }

  /** A known type gets its table label, which differs from the type key;
      any other type is shown as it is. */
  lemma WaterTestLabelFacts(testType: string)
    ensures (exists i :: 0 <= i < |WaterTestTypes| && WaterTestTypes[i].0 == testType) ==>
              (testType, WaterTestLabel(testType)) in WaterTestTypes && WaterTestLabel(testType) != testType
    ensures (forall i :: 0 <= i < |WaterTestTypes| ==> WaterTestTypes[i].0 != testType) ==>
              WaterTestLabel(testType) == testType
  {
  }

  // ---------------------------------------------------------------- location cell

  const UnknownCountryName := "unknown country"
  const UndefinedLabel := "undefined"

  /** The country shown in a coliforms row: blank or "unknown country" (any
      case) become "undefined". */
  function CountryCell(country: string): (r: string)
    ensures r != ""
  {
    var raw := Trim(country);
    if raw == "" || ToLower(raw) == UnknownCountryName then UndefinedLabel else raw
  }

  /** The location cell of a coliforms row, from the country of the record
      and the `constituency` of its constituency lookup. */
  function ColiformsLocationLabel(country: string, constituency: Value): (r: string)
    ensures r != ""
  {
    var c := Trim(TextOr(constituency));
    var name := CountryCell(country);
    if c != "" then c + ", " + name
    else if name != "" then name else UndefinedLabel
  }

  /** With a constituency the cell is "constituency, country"; without one it
      is the country, and a blank or unknown country reads "undefined". */
  lemma ColiformsLocationLabelFacts(country: string, constituency: Value)
    ensures var c := Trim(TextOr(constituency));
            var raw := Trim(country);
            var name := if raw == "" || ToLower(raw) == UnknownCountryName then UndefinedLabel else raw;
            && (c != "" ==> ColiformsLocationLabel(country, constituency) == c + ", " + name)
            && (c == "" ==> ColiformsLocationLabel(country, constituency) == name)
  {
  }

  /** The dashboard defines no constituency lookup, so the constituency is
      always empty and the cell is the country alone. */
  lemma NoConstituencyLookup(country: string)
    ensures ColiformsLocationLabel(country, Str("")) == CountryCell(country)
  {
    assert Trim("") == "";
  }
}
