/** The per-record predicates of the current dashboard's filter engine
    (js/filter-rules.js). */
module FilterRules {
  import opened Base
  import opened Text
  import opened Js
  import opened DateUtils
  import opened PhotoHelpers

  /** `passesStatusFilter`: "moderated" and "unmoderated" select by
      `IsModerated`; "all" and every other status pass everything. */
  predicate PassesStatus(photo: Value, status: string) {
    if status == "all" then true
    else if status == "moderated" then IsModerated(photo)
    else if status == "unmoderated" then !IsModerated(photo)
    else true
  }

  /** Every photo passes exactly one of the two status filters. */
  lemma StatusFiltersPartition(photo: Value)
    ensures PassesStatus(photo, "moderated") != PassesStatus(photo, "unmoderated")
  {
  }

  /** A status other than "moderated" and "unmoderated" filters nothing out. */
  lemma OtherStatusPassesAll(photo: Value, status: string)
    requires status != "moderated" && status != "unmoderated"
    ensures PassesStatus(photo, status)
  {
  }

  /** `passesPiecesFilter`: `getPieces(photo) >= minPieces`. */
  predicate PassesPieces(photo: Value, minPieces: Number) {
    Le(minPieces, Pieces(photo))
  }

  /** Lowering the threshold never rejects a photo that passed. */
  lemma PiecesFilterMonotone(photo: Value, t: Number, lower: Number)
    requires PassesPieces(photo, t)
    requires Le(lower, t)
    ensures PassesPieces(photo, lower)
  {
    LeTransitive(lower, t, Pieces(photo));
  }

  /** A zero threshold passes every photo. */
  lemma ZeroThresholdPassesAll(photo: Value)
    ensures PassesPieces(photo, Zero)
  {
  }

  /** `passesDateFilter`. */
  predicate PassesDate(photo: Value, year: string, month: string, parse: DateParser) {
    var d := PhotoDate(photo, parse);
    MatchesYear(d, year) && MatchesMonth(d, month)
  }

  /** With year and month both set, a photo passes exactly when its date is
      in that month of that year. */
  lemma DateFilterSelectsMonthOfYear(photo: Value, y: int, m: Month, parse: DateParser)
    ensures PassesDate(photo, IntToString(y), IntToString(m), parse) <==>
              PhotoDate(photo, parse).Some? && PhotoDate(photo, parse).value.year == y
              && PhotoDate(photo, parse).value.month == m
  {
    YearOptionSelectsYear(PhotoDate(photo, parse), y);
    MonthOptionSelectsMonth(PhotoDate(photo, parse), m);
  }

  /** `passesLocationFilter`. */
  predicate PassesLocation(photo: Value, selectedLocation: string) {
    selectedLocation == "" || PhotoLocationKey(photo) == selectedLocation
  }

  /** A photo without coordinates passes a location filter only when nothing
      or "undefined" is selected. */
  lemma LocationFilterWithoutCoordinates(photo: Value, selectedLocation: string)
    requires PhotoCoordinates(photo).None?
    ensures PassesLocation(photo, selectedLocation) <==> selectedLocation == "" || selectedLocation == "undefined"
  {
  }

  /** `normalizeBrandLabelSearch`: `String(value || '').trim().toLowerCase()`. */
  function NormalizeSearch(value: Value): (r: string)
    ensures Trimmed(r) && ToLower(r) == r
  {
    var r := ToLower(Trim(TextOr(value)));
    LowerKeepsTrimmed(Trim(TextOr(value)));
    LowerIdempotent(Trim(TextOr(value)));
    r
  }

  /** Normalising an already normalised term changes nothing. */
  lemma NormalizeSearchIdempotent(value: Value)
    ensures NormalizeSearch(Str(NormalizeSearch(value))) == NormalizeSearch(value)
  {
    var r := NormalizeSearch(value);
    assert TextOr(Str(r)) == r;
    TrimOfTrimmed(r);
  }

  /** The trimmed, lower-cased text of a category field. */
  function FieldText(category: Value, field: string): string {
    ToLower(Trim(TextOr(Get(category, field))))
  }

  /** `categoryMatchesBrandLabelSearch`: an empty term matches everything;
      otherwise the term must occur in the brand or in the label. */
  predicate CategoryMatches(category: Value, term: string) {
    term == "" || Contains(FieldText(category, "brand"), term) || Contains(FieldText(category, "label"), term)
  }

  /** `passesBrandLabelFilter`: an active term needs at least one matching
      category, so a photo without categories fails it. */
  predicate PassesBrandLabel(photo: Value, searchTerm: Value) {
    var term := NormalizeSearch(searchTerm);
    var categories := PhotoCategories(photo);
    term == "" || exists i :: 0 <= i < |categories| && CategoryMatches(categories[i], term)
  }

  lemma BrandLabelWithoutCategories(photo: Value, searchTerm: Value)
    requires PhotoCategories(photo) == []
    ensures PassesBrandLabel(photo, searchTerm) <==> NormalizeSearch(searchTerm) == ""
  {
  }

  /** A category matches its own brand and its own label. */
  lemma CategoryMatchesOwnBrand(category: Value)
    ensures CategoryMatches(category, FieldText(category, "brand"))
    ensures CategoryMatches(category, FieldText(category, "label"))
  {
    ContainsSelf(FieldText(category, "brand"));
    ContainsSelf(FieldText(category, "label"));
  }
}
