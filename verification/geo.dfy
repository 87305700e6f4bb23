/** Country-name, country-code and location-entry normalisation
    (the pure part of js/location.js). The `Intl.DisplayNames` tables the
    source derives at run time are a parameter. */
module Geo {
  import opened Base
  import opened Text
  import opened Js

  const UnknownLocation := "Unknown location"
  const UnknownCountry := "Unknown country"

  /** `COUNTRY_NAME_ALIASES`: lower-cased spellings rewritten before lookup. */
  const NameAliases: seq<(string, string)> := [
    ("usa", "United States"),
    ("u.s.a.", "United States"),
    ("united states of america", "United States"),
    ("uk", "United Kingdom"),
    ("uae", "United Arab Emirates")
  ]

  /** `COUNTRY_CODE_NAME_ALIASES`, in declaration order. */
  const CodeNameAliases: seq<(string, string)> := [
    ("bolivia", "Bolivia"),
    ("brunei darussalam", "Brunei"),
    ("cape verde", "Cabo Verde"),
    ("congo kinshasa", "Congo - Kinshasa"),
    ("congo brazzaville", "Congo - Brazzaville"),
    ("curacao", "Curacao"),
    ("cote divoire", "Cote d'Ivoire"),
    ("cote d ivoire", "Cote d'Ivoire"),
    ("ivory coast", "Cote d'Ivoire"),
    ("czech republic", "Czechia"),
    ("falkland islands", "Falkland Islands (Islas Malvinas)"),
    ("micronesia", "Micronesia"),
    ("iran", "Iran"),
    ("laos", "Laos"),
    ("moldova", "Moldova"),
    ("north korea", "North Korea"),
    ("south korea", "South Korea"),
    ("palestine", "Palestine"),
    ("russia", "Russia"),
    ("reunion", "Reunion"),
    ("swaziland", "Eswatini"),
    ("syria", "Syria"),
    ("tanzania", "Tanzania"),
    ("timor leste", "Timor-Leste"),
    ("east timor", "Timor-Leste"),
    ("turkey", "Turkiye"),
    ("venezuela", "Venezuela"),
    ("vietnam", "Vietnam"),
    ("wallis and futuna", "Wallis & Futuna")
  ]

  /** `COUNTRY_NAME_TO_CODE_OVERRIDES`. */
  const CodeOverrides: seq<(string, string)> := [("kosovo", "XK"), ("vatican city", "VA")]

  /** The first value stored under `key` in a constant table. */
  function TableGet(table: seq<(string, string)>, key: string): (r: Option<string>)
    ensures r.Some? ==> (key, r.value) in table
    ensures r.None? ==> forall i :: 0 <= i < |table| ==> table[i].0 != key
  {
    if |table| == 0 then None
    else if table[0].0 == key then Some(table[0].1)
    else
      var r := TableGet(table[1..], key);
      assert r.Some? ==> (key, r.value) in table[1..];
      r
  }

  /** The region-name tables `Intl.DisplayNames` provides:
      `english` maps a lookup key (see `LookupKey`) of an English or localised
      region name to the English name; `codes` maps the lookup key of an
      English region name to its two-letter code. */
  datatype Tables = Tables(english: map<string, string>, codes: map<string, string>)

  // ---------------------------------------------------------------- lookup keys

  predicate IsAsciiAlnum(c: char) {
    ('a' <= c <= 'z') || ('A' <= c <= 'Z') || ('0' <= c <= '9')
  }

  predicate IsCombiningMark(c: char) {
    '\U{0300}' <= c <= '\U{036F}'
  }

  /** `replace(/[̀-ͯ]/g, '')`. */
  function StripMarks(s: string): (r: string)
    ensures forall i :: 0 <= i < |r| ==> !IsCombiningMark(r[i])
  {
    if |s| == 0 then ""
    else if IsCombiningMark(s[0]) then StripMarks(s[1..])
    else [s[0]] + StripMarks(s[1..])
  }

  /** `replace(/&/g, ' and ')`. */
  function SpellAmpersand(s: string): string {
    if |s| == 0 then ""
    else (if s[0] == '&' then " and " else [s[0]]) + SpellAmpersand(s[1..])
  }

  /** Drops a leading run of characters other than ASCII letters and digits. */
  function SkipNonAlnum(s: string): (r: string)
    ensures |r| <= |s|
    ensures |r| > 0 ==> IsAsciiAlnum(r[0])
  {
    if |s| > 0 && !IsAsciiAlnum(s[0]) then SkipNonAlnum(s[1..]) else s
  }

  /** `replace(/[^a-zA-Z0-9]+/g, ' ')`. */
  function CollapseNonAlnum(s: string): (r: string)
    ensures AlnumOrSpace(r)
    decreases |s|
  {
    if |s| == 0 then ""
    else if !IsAsciiAlnum(s[0]) then " " + CollapseNonAlnum(SkipNonAlnum(s))
    else [s[0]] + CollapseNonAlnum(s[1..])
  }

  /** Lower-case ASCII letters, digits and spaces only. */
  predicate KeyChars(s: string) {
    forall i :: 0 <= i < |s| ==> ('a' <= s[i] <= 'z') || ('0' <= s[i] <= '9') || s[i] == ' '
  }

  /** ASCII letters, digits and spaces only. */
  predicate AlnumOrSpace(s: string) {
    forall i :: 0 <= i < |s| ==> IsAsciiAlnum(s[i]) || s[i] == ' '
  }

  lemma TrimKeepsAlnumOrSpace(s: string)
    requires AlnumOrSpace(s)
    ensures AlnumOrSpace(Trim(s))
  {
    var a := TrimStart(s);
    TrimStartSuffix(s);
    forall i | 0 <= i < |a| ensures IsAsciiAlnum(a[i]) || a[i] == ' ' {
      assert a[i] == s[|s| - |a| + i];
    }
    var b := TrimEnd(a);
    forall i | 0 <= i < |b| ensures IsAsciiAlnum(b[i]) || b[i] == ' ' {
      assert b[i] == a[i];
    }
  }

  /** `normalizeCountryLookupKey`: the name reduced to lower-case ASCII letters
      and digits separated by single spaces. Unicode NFKD decomposition is not
      modelled: the input is taken to be decomposed already. */
  function LookupKey(s: string): (r: string)
    ensures KeyChars(r) && Trimmed(r)
  {
    var c := CollapseNonAlnum(SpellAmpersand(StripMarks(s)));
    var t := Trim(c);
    TrimKeepsAlnumOrSpace(c);
    LowerKeepsTrimmed(t);
    ToLower(t)
  }

  // ---------------------------------------------------------------- names

  /** Texts that stand for "no country". */
  predicate IsUnknownText(lower: string) {
    lower == "unknown location" || lower == "unknown country"
  }

  /** The trimmed segments of a comma-separated label, blanks dropped. */
  function NonBlankSegments(parts: seq<string>): (r: seq<string>)
    ensures forall i :: 0 <= i < |r| ==> r[i] != "" && Trimmed(r[i])
  {
    if |parts| == 0 then []
    else
      var t := Trim(parts[0]);
      (if t == "" then [] else [t]) + NonBlankSegments(parts[1..])
  }

  /** `parseCountryFromLabel`: the country part of a "City, Country" label. */
  function ParseCountryFromLabel(labelText: Value): (r: string)
    ensures r != ""
    ensures Trim(TextOr(labelText)) == "" ==> r == UnknownCountry
    ensures IsUnknownText(ToLower(Trim(TextOr(labelText)))) ==> r == UnknownCountry
    ensures var raw := Trim(TextOr(labelText));
            raw != "" && !IsUnknownText(ToLower(raw)) && ',' !in raw ==> r == raw
  {
    var raw := Trim(TextOr(labelText));
    if raw == "" then UnknownCountry
    else if IsUnknownText(ToLower(raw)) then UnknownCountry
    else if ',' in raw then
      var segments := NonBlankSegments(Split(raw, ','));
      if |segments| == 0 then UnknownCountry else segments[|segments| - 1]
    else raw
  }

  predicate Blank(s: string) {
    Trim(s) == ""
  }

  /** Every segment after index `i` is blank. */
  predicate BlankAfter(parts: seq<string>, i: int) {
    forall j :: 0 <= j < |parts| && i < j ==> Blank(parts[j])
  }

  /** With a comma, the result is the last segment that is not blank
      (trimmed), or "Unknown country" if every segment is blank. */
  lemma {:induction false} LastNonBlankSegment(parts: seq<string>)
    ensures |NonBlankSegments(parts)| == 0 <==> BlankAfter(parts, -1)
    ensures |NonBlankSegments(parts)| > 0 ==>
              exists i :: 0 <= i < |parts| && !Blank(parts[i]) && BlankAfter(parts, i)
                          && NonBlankSegments(parts)[|NonBlankSegments(parts)| - 1] == Trim(parts[i])
    decreases |parts|
  {
    if |parts| > 0 {
      var tail := parts[1..];
      LastNonBlankSegment(tail);
      var rest := NonBlankSegments(tail);
      var r := NonBlankSegments(parts);
      var t := Trim(parts[0]);
      assert r == (if t == "" then [] else [t]) + rest;
      assert forall j :: 0 <= j < |tail| ==> tail[j] == parts[j + 1];
      if |rest| > 0 {
        var i :| 0 <= i < |tail| && !Blank(tail[i]) && BlankAfter(tail, i) && rest[|rest| - 1] == Trim(tail[i]);
        assert r[|r| - 1] == rest[|rest| - 1];
        assert BlankAfter(parts, i + 1) by {
          forall j | i + 1 < j < |parts| ensures Blank(parts[j]) {
            assert parts[j] == tail[j - 1];
          }
        }
      } else {
        assert BlankAfter(parts, 0) by {
          forall j | 0 < j < |parts| ensures Blank(parts[j]) {
            assert parts[j] == tail[j - 1];
          }
        }
        if t != "" {
          assert r == [t];
        }
      }
    }
  }

  /** `getEnglishCountryName`: the English name the tables give, or "". */
  function EnglishName(name: string, t: Tables): string {
    var key := LookupKey(name);
    if key == "" then ""
    else if key in t.english then t.english[key]
    else ""
  }

  /** `normalizeCountryName`: white space collapsed, blank and "unknown"
      labels mapped to "Unknown country", the alias table applied, then the
      English name if the tables know one, else the aliased text. */
  function NormalizeCountryName(country: Value, t: Tables): (r: string)
    ensures r != ""
    ensures CollapseSpaces(Trim(TextOr(country))) == "" ==> r == UnknownCountry
    ensures var raw := CollapseSpaces(Trim(TextOr(country)));
            raw != "" && IsUnknownText(ToLower(raw)) ==> r == UnknownCountry
    ensures var raw := CollapseSpaces(Trim(TextOr(country)));
            raw != "" && !IsUnknownText(ToLower(raw)) ==>
              var aliased := TableGet(NameAliases, ToLower(raw)).GetOr(raw);
              r == (if EnglishName(aliased, t) != "" then EnglishName(aliased, t) else aliased)
  {
    var raw := CollapseSpaces(Trim(TextOr(country)));
    if raw == "" then UnknownCountry
    else
      var lower := ToLower(raw);
      if IsUnknownText(lower) then UnknownCountry
      else
        var aliased := TableGet(NameAliases, lower).GetOr(raw);
        assert aliased != "" by {
          if TableGet(NameAliases, lower).Some? {
            var i :| 0 <= i < |NameAliases| && NameAliases[i] == (lower, aliased);
          }
        }
        var english := EnglishName(aliased, t);
        if english != "" then english else aliased
  }

  /** A trimmed, single-spaced text is read as it is. */
  lemma NormalizePlainName(name: string, t: Tables)
    requires name != "" && Trimmed(name) && SingleSpaced(name)
    requires !IsUnknownText(ToLower(name))
    ensures var aliased := TableGet(NameAliases, ToLower(name)).GetOr(name);
            NormalizeCountryName(Str(name), t) == (if EnglishName(aliased, t) != "" then EnglishName(aliased, t) else aliased)
  {
    assert TextOr(Str(name)) == name;
    TrimOfTrimmed(name);
    CollapseOfSingleSpaced(name);
  }

  lemma UnitedStatesIsPlain()
    ensures "United States" != "" && Trimmed("United States") && SingleSpaced("United States")
    ensures ToLower("United States") == "united states"
  {
    var us := "United States";
    assert PlainWords(us);
    PlainWordsArePlain(us);
    var lower := ToLower(us);
    assert |lower| == |"united states"|;
    forall i | 0 <= i < |lower| ensures lower[i] == "united states"[i] {
      assert lower[i] == LowerChar(us[i]);
    }
  }

  lemma UnitedStatesHasNoAlias()
    ensures TableGet(NameAliases, "united states") == None
  {
  }

  /** "USA", in any case and spacing, is rewritten to "United States" before
      the table lookup, so it normalises exactly like "United States". */
  lemma AliasesApplyFirst(country: Value, t: Tables)
    requires ToLower(CollapseSpaces(Trim(TextOr(country)))) == "usa"
    ensures NormalizeCountryName(country, t) == NormalizeCountryName(Str("United States"), t)
  {
    var raw := CollapseSpaces(Trim(TextOr(country)));
    assert raw != "";
    assert !IsUnknownText("usa");
    assert TableGet(NameAliases, "usa") == Some("United States");
    UnitedStatesIsPlain();
    UnitedStatesHasNoAlias();
    assert !IsUnknownText("united states");
    NormalizePlainName("United States", t);
  }

  // ---------------------------------------------------------------- codes

  /** `COUNTRY_CODE_ALIASES`. */
  const CodeAliases: seq<(string, string)> := [("UK", "GB")]

  /** `normalizeCountryCode`: trimmed, upper-cased, "UK" read as "GB". */
  function NormalizeCountryCode(code: Value): (r: string)
    ensures Trimmed(r) && ToUpper(r) == r
  {
    var c := ToUpper(Trim(TextOr(code)));
    UpperKeepsTrimmed(Trim(TextOr(code)));
    UpperIdempotent(Trim(TextOr(code)));
    match TableGet(CodeAliases, c)
    case Some(a) =>
      assert a == "GB";
      a
    case None => c
  }

  lemma NormalizeCountryCodeIdempotent(code: Value)
    ensures NormalizeCountryCode(Str(NormalizeCountryCode(code))) == NormalizeCountryCode(code)
  {
    var r := NormalizeCountryCode(code);
    assert TextOr(Str(r)) == r;
    TrimOfTrimmed(r);
  }

  /** `/^[A-Z]{2}$/`. */
  predicate IsTwoLetterCode(s: string) {
    |s| == 2 && 'A' <= s[0] <= 'Z' && 'A' <= s[1] <= 'Z'
  }

  /** The name-to-code lookup `getCountryNameToCodeLookup` builds: the
      tables' codes, then each alias of `COUNTRY_CODE_NAME_ALIASES` in order
      takes the code of its canonical name if that has one, then the fixed
      overrides. */
  function CodeLookup(t: Tables): map<string, string> {
    WithOverrides(WithAliases(t.codes, CodeNameAliases), CodeOverrides)
  }

  function WithAliases(m: map<string, string>, aliases: seq<(string, string)>): map<string, string>
    decreases |aliases|
  {
    if |aliases| == 0 then m
    else
      var key := LookupKey(aliases[0].0);
      var canonicalKey := LookupKey(aliases[0].1);
      var next := if canonicalKey in m && m[canonicalKey] != "" then m[key := m[canonicalKey]] else m;
      WithAliases(next, aliases[1..])
  }

  function WithOverrides(m: map<string, string>, overrides: seq<(string, string)>): map<string, string>
    decreases |overrides|
  {
    if |overrides| == 0 then m
    else WithOverrides(m[LookupKey(overrides[0].0) := overrides[0].1], overrides[1..])
  }

  /** The overrides apply whatever the tables and the aliases say. */
  lemma OverridesWin(t: Tables)
    ensures "kosovo" in CodeLookup(t) && CodeLookup(t)["kosovo"] == "XK"
    ensures "vatican city" in CodeLookup(t) && CodeLookup(t)["vatican city"] == "VA"
  {
    OverridesApply(WithAliases(t.codes, CodeNameAliases));
  }

  lemma OverridesApply(m: map<string, string>)
    ensures var r := WithOverrides(m, CodeOverrides);
            "kosovo" in r && r["kosovo"] == "XK" && "vatican city" in r && r["vatican city"] == "VA"
  {
    var o := CodeOverrides;
    TwoOverrides(m, o);
    OverrideKeys();
    LastTwoUpdates(m, LookupKey(o[0].0), o[0].1, LookupKey(o[1].0), o[1].1);
  }

  lemma LastTwoUpdates(m: map<string, string>, a: string, x: string, b: string, y: string)
    requires a != b
    ensures a in m[a := x][b := y] && m[a := x][b := y][a] == x
    ensures b in m[a := x][b := y] && m[a := x][b := y][b] == y
  {
  }

  lemma TwoOverrides(m: map<string, string>, overrides: seq<(string, string)>)
    requires |overrides| == 2
    ensures WithOverrides(m, overrides)
            == m[LookupKey(overrides[0].0) := overrides[0].1][LookupKey(overrides[1].0) := overrides[1].1]
  {
    var rest := overrides[1..];
    var m1 := m[LookupKey(overrides[0].0) := overrides[0].1];
    assert WithOverrides(m, overrides) == WithOverrides(m1, rest);
    var m2 := m1[LookupKey(rest[0].0) := rest[0].1];
    assert WithOverrides(m1, rest) == WithOverrides(m2, rest[1..]);
    assert |rest[1..]| == 0;
  }

  lemma OverrideKeys()
    ensures LookupKey(CodeOverrides[0].0) == "kosovo" && CodeOverrides[0].1 == "XK"
    ensures LookupKey(CodeOverrides[1].0) == "vatican city" && CodeOverrides[1].1 == "VA"
  {
    KosovoKey();
    VaticanCityKey();
  }

  lemma KosovoKey()
    ensures LookupKey("kosovo") == "kosovo"
  {
    assert PlainWords("kosovo") && LowerOrSpace("kosovo");
    KeyOfPlainName("kosovo");
  }

  lemma VaticanCityKey()
    ensures LookupKey("vatican city") == "vatican city"
  {
    assert PlainWords("vatican city") && LowerOrSpace("vatican city");
    KeyOfPlainName("vatican city");
  }

  /** A name of lower-case letters with single inner spaces is its own key. */
  lemma KeyOfPlainName(s: string)
    requires PlainWords(s) && LowerOrSpace(s)
    ensures LookupKey(s) == s
  {
    PlainKeepsChars(s);
    PlainWordsArePlain(s);
    TrimOfTrimmed(s);
    LowerOfLowerOrSpace(s);
  }

  lemma PlainKeepsChars(s: string)
    requires PlainWords(s) && LowerOrSpace(s)
    ensures CollapseNonAlnum(SpellAmpersand(StripMarks(s))) == s
  {
    PlainWordsArePlain(s);
    PlainStripMarks(s);
    PlainSpellAmpersand(s);
    PlainCollapseNonAlnum(s);
  }

  lemma {:induction false} PlainStripMarks(s: string)
    requires LowerOrSpace(s)
    ensures StripMarks(s) == s
    decreases |s|
  {
    if |s| > 0 {
      PlainStripMarks(s[1..]);
      assert s == [s[0]] + s[1..];
    }
  }

  lemma {:induction false} PlainSpellAmpersand(s: string)
    requires LowerOrSpace(s)
    ensures SpellAmpersand(s) == s
    decreases |s|
  {
    if |s| > 0 {
      PlainSpellAmpersand(s[1..]);
      assert s == [s[0]] + s[1..];
    }
  }

  lemma {:induction false} PlainCollapseNonAlnum(s: string)
    requires LowerOrSpace(s)
    requires SingleSpaced(s)
    ensures CollapseNonAlnum(s) == s
    decreases |s|
  {
    if |s| > 0 {
      SingleSpacedTail(s);
      PlainCollapseNonAlnum(s[1..]);
      if s[0] == ' ' {
        if |s| > 1 {
          assert !IsSpace(s[1]);
        }
        assert SkipNonAlnum(s) == s[1..];
      }
      assert s == [s[0]] + s[1..];
    }
  }

  /** `getCountryCodeFromName`: the code the lookup holds for the normalised
      name, normalised; "" for an unknown country or a name with no code. */
  function CountryCodeFromName(name: Value, t: Tables): (r: string)
    ensures NormalizeCountryName(name, t) == UnknownCountry ==> r == ""
  {
    var normalized := NormalizeCountryName(name, t);
    if normalized == UnknownCountry then ""
    else
      var lookup := CodeLookup(t);
      var key := LookupKey(normalized);
      NormalizeCountryCode(Str(if key in lookup then lookup[key] else ""))
  }

  /** `getCountryGroupKey`: "cc:" and the code when the normalised code is two
      letters A-Z, whatever the name; otherwise "nm:" and the lower-cased
      normalised name. The three-character tag tells the two kinds apart,
      and what follows it reads back as the code or the name. */
  function CountryGroupKey(country: Value, code: Value, t: Tables): (r: string)
    ensures |r| >= 3 && (r[..3] == "cc:" <==> IsTwoLetterCode(NormalizeCountryCode(code)))
    ensures IsTwoLetterCode(NormalizeCountryCode(code)) ==> r[3..] == NormalizeCountryCode(code)
    ensures !IsTwoLetterCode(NormalizeCountryCode(code)) ==> r[3..] == ToLower(NormalizeCountryName(country, t))
  {
    var c := NormalizeCountryCode(code);
    if IsTwoLetterCode(c) then "cc:" + c else "nm:" + ToLower(NormalizeCountryName(country, t))
  }

  /** Two records share a code group exactly when their codes agree, and a
      code group never equals a name group. */
  lemma GroupKeysSeparate(country: Value, code: Value, country2: Value, code2: Value, t: Tables)
    requires IsTwoLetterCode(NormalizeCountryCode(code))
    ensures CountryGroupKey(country, code, t) == CountryGroupKey(country2, code2, t)
            <==> NormalizeCountryCode(code) == NormalizeCountryCode(code2)
  {
    var k1, k2 := CountryGroupKey(country, code, t), CountryGroupKey(country2, code2, t);
    if !IsTwoLetterCode(NormalizeCountryCode(code2)) {
      assert k1[..3] == "cc:" && k2[..3] == "nm:";
    } else if k1 == k2 {
      assert k1[3..] == NormalizeCountryCode(code) && k2[3..] == NormalizeCountryCode(code2);
    } else {
      assert k1 == "cc:" + NormalizeCountryCode(code) && k2 == "cc:" + NormalizeCountryCode(code2);
    }
  }

  /** Two records without a two-letter code share a name group exactly when
      their normalised names agree up to case. */
  lemma NameGroupsMeet(country: Value, code: Value, country2: Value, code2: Value, t: Tables)
    requires !IsTwoLetterCode(NormalizeCountryCode(code)) && !IsTwoLetterCode(NormalizeCountryCode(code2))
    ensures CountryGroupKey(country, code, t) == CountryGroupKey(country2, code2, t)
            <==> ToLower(NormalizeCountryName(country, t)) == ToLower(NormalizeCountryName(country2, t))
  {
    var k1, k2 := CountryGroupKey(country, code, t), CountryGroupKey(country2, code2, t);
    if k1 == k2 {
      assert k1[3..] == k2[3..];
    } else {
      assert k1 == "nm:" + k1[3..] && k2 == "nm:" + k2[3..];
    }
  }

  // ---------------------------------------------------------------- entries

  /** A normalised location entry. */
  datatype LocationEntry = LocationEntry(labelText: string, country: string, countryCode: string)

  const UnknownEntry := LocationEntry(UnknownLocation, UnknownCountry, "")

  /** Both "unknown" labels are trimmed, single-spaced ASCII text. */
  lemma UnknownLabelsArePlain()
    ensures UnknownLocation != "" && Trimmed(UnknownLocation) && SingleSpaced(UnknownLocation)
    ensures UnknownCountry != "" && Trimmed(UnknownCountry) && SingleSpaced(UnknownCountry)
  {
    assert PlainWords(UnknownLocation);
    PlainWordsArePlain(UnknownLocation);
    assert PlainWords(UnknownCountry);
    PlainWordsArePlain(UnknownCountry);
  }

  /** `String(entry.label || '').trim() || "Unknown location"`. */
  function EntryLabel(entry: Value): (r: string)
    ensures r != "" && Trimmed(r)
    ensures Trim(TextOr(Get(entry, "label"))) != "" ==> r == Trim(TextOr(Get(entry, "label")))
  {
    UnknownLabelsArePlain();
    var trimmed := Trim(TextOr(Get(entry, "label")));
    if trimmed != "" then trimmed else UnknownLocation
  }

  /** `normalizeLocationEntry`: a missing entry is unknown; a string is a label
      whose country is parsed from it; an object keeps its label (or "Unknown
      location"), its country (or the one parsed from the label) and its code
      (or the one looked up from the country name). */
  function NormalizeLocationEntry(entry: Value, t: Tables): (r: LocationEntry)
    ensures !Truthy(entry) ==> r == UnknownEntry
    ensures r.country != ""
    ensures entry.Str? && Truthy(entry) ==> r.labelText == entry.s
    ensures Truthy(entry) && !entry.Str? ==> r.labelText == EntryLabel(entry)
    ensures Truthy(entry) && !entry.Str? && NormalizeCountryCode(Get(entry, "countryCode")) != "" ==>
              r.countryCode == NormalizeCountryCode(Get(entry, "countryCode"))
  {
    if !Truthy(entry) then UnknownEntry
    else if entry.Str? then
      var country := NormalizeCountryName(Str(ParseCountryFromLabel(entry)), t);
      LocationEntry(entry.s, country, CountryCodeFromName(Str(country), t))
    else
      var labelText := EntryLabel(entry);
      var country := NormalizeCountryName(Or(Get(entry, "country"), Str(ParseCountryFromLabel(Str(labelText)))), t);
      var code := NormalizeCountryCode(Get(entry, "countryCode"));
      LocationEntry(labelText, country, if code != "" then code else CountryCodeFromName(Str(country), t))
  }

  /** The object form in which entries are stored in the dictionary. */
  function EntryValue(e: LocationEntry): (v: Value)
    ensures v.Obj? && Get(v, "label") == Str(e.labelText) && Get(v, "country") == Str(e.country)
    ensures Get(v, "countryCode") == Str(e.countryCode)
  {
    var fields := [("label", Str(e.labelText)), ("country", Str(e.country)), ("countryCode", Str(e.countryCode))];
    assert FieldOf(fields, "country") == FieldOf(fields[1..], "country");
    assert FieldOf(fields, "countryCode") == FieldOf(fields[1..], "countryCode") == FieldOf(fields[2..], "countryCode");
    Obj(fields)
  }

  /** `isUnknownLocationEntry`. */
  predicate IsUnknownEntry(entry: Value, t: Tables) {
    NormalizeLocationEntry(entry, t).country == UnknownCountry
  }

  /** "Unknown country" normalises to itself. */
  lemma UnknownCountryNormalizes(t: Tables)
    ensures NormalizeCountryName(Str(UnknownCountry), t) == UnknownCountry
  {
    UnknownCountryRaw();
    UnknownCountryLower();
  }

  lemma UnknownCountryRaw()
    ensures CollapseSpaces(Trim(TextOr(Str(UnknownCountry)))) == UnknownCountry
  {
    UnknownLabelsArePlain();
    TrimOfTrimmed(UnknownCountry);
    CollapseOfSingleSpaced(UnknownCountry);
  }

  lemma UnknownCountryLower()
    ensures IsUnknownText(ToLower(UnknownCountry))
  {
    var lower := ToLower(UnknownCountry);
    assert |lower| == |"unknown country"|;
    forall i | 0 <= i < |lower| ensures lower[i] == "unknown country"[i] {
      assert lower[i] == LowerChar(UnknownCountry[i]);
    }
  }

  /** A stored entry read back keeps its label, and keeps its code when that
      is already in normal form; the stored unknown entry stays unknown. */
  lemma StoredEntryRoundTrip(e: LocationEntry, t: Tables)
    requires e.labelText != "" && Trimmed(e.labelText)
    ensures NormalizeLocationEntry(EntryValue(e), t).labelText == e.labelText
    ensures e.countryCode != "" && NormalizeCountryCode(Str(e.countryCode)) == e.countryCode ==>
              NormalizeLocationEntry(EntryValue(e), t).countryCode == e.countryCode
  {
    var v := EntryValue(e);
    assert TextOr(Str(e.labelText)) == e.labelText;
    TrimOfTrimmed(e.labelText);
  }

  /** The unknown entry stays unknown when normalised again. */
  lemma UnknownEntryStaysUnknown(t: Tables)
    ensures IsUnknownEntry(EntryValue(UnknownEntry), t)
  {
    var v := EntryValue(UnknownEntry);
    assert Get(v, "country") == Str(UnknownCountry);
    assert Truthy(Str(UnknownCountry));
    UnknownCountryNormalizes(t);
  }
}
