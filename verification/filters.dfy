/** The pure parts of js/filters.js: `filterPhotos`, which keeps the records
    passing every active filter and narrows their categories to the ones
    matching the search, and the rule by which the country dropdown keeps or
    resets the current selection. */
module Filters {
  import opened Base
  import opened Text
  import opened Js
  import opened Sums
  import opened Groups
  import opened DateUtils
  import opened PhotoHelpers
  import opened FilterRules
  import opened Geo
  import opened Location

  /** The filter controls' values. `country` is a country group key, or ""
      for all countries. */
  datatype FilterValues = FilterValues(country: string, status: string, minPieces: Number,
                                       year: string, month: string, search: Value)

  /** The environment a filter runs in: the location dictionary, the country
      tables and the date parser. */
  datatype Context = Context(dictionary: Dictionary, tables: Tables, parse: DateParser)

  /** The country check: no country selected, or the photo's group key. */
  predicate PassesCountry(photo: Value, country: string, cx: Context) {
    country == "" || CountryInfoForPhoto(photo, cx.dictionary, cx.tables).countryKey == country
  }

  /** The five checks of the loop, in the order the source applies them. */
  predicate Passes(photo: Value, f: FilterValues, cx: Context) {
    && PassesCountry(photo, f.country, cx)
    && PassesStatus(photo, f.status)
    && PassesPieces(photo, f.minPieces)
    && PassesDate(photo, f.year, f.month, cx.parse)
    && PassesBrandLabel(photo, f.search)
  }

  /** The category test for a normalised term, as a predicate value. */
  function MatchesTerm(term: string): Value -> bool {
    (c: Value) => CategoryMatches(c, term)
  }

  /** The in-order categories of a photo that match the term. */
  function MatchingCategories(photo: Value, term: string): (r: seq<Value>)
    ensures forall i :: 0 <= i < |r| ==> CategoryMatches(r[i], term)
  {
    Filter(PhotoCategories(photo), MatchesTerm(term))
  }

  /** What the loop stores for one record: nothing when a check fails; the
      record itself when the search is blank; otherwise the record with its
      categories narrowed to the matching ones, unless none match. */
  function Kept(photo: Value, f: FilterValues, cx: Context): (r: Option<Value>)
  {
    var term := NormalizeSearch(f.search);
    if !Passes(photo, f, cx) then None
    else if term == "" then Some(photo)
    else
      var matching := MatchingCategories(photo, term);
      if |matching| == 0 then None
      else
        assert photo.Obj? by {
          assert PhotoCategories(photo) != [];
        }
        Some(Put(photo, "categories", Arr(matching)))
  }

  /** The loop of `filterPhotos` for a per-record rule `keep`: each record
      the rule keeps is stored under its id, in key order. */
  function KeepEach(photos: Photos, keep: Value -> Option<Value>): (r: Photos)
    ensures |r| <= |photos|
  {
    if |photos| == 0 then []
    else
      var rest := KeepEach(photos[1..], keep);
      match keep(photos[0].1)
      case None => rest
      case Some(v) => [(photos[0].0, v)] + rest
  }

  /** `Kept` for fixed filter values, as a rule. */
  function KeepRule(f: FilterValues, cx: Context): Value -> Option<Value> {
    (photo: Value) => Kept(photo, f, cx)
  }

  /** `filterPhotos`. */
  function FilterPhotos(photos: Photos, f: FilterValues, cx: Context): Photos {
    KeepEach(photos, KeepRule(f, cx))
  }

  /** A record is kept exactly when it passes all five checks: a record that
      passes the brand/label check with an active term has a matching
      category, so the narrowing never empties a kept record. */
  lemma KeptIffPasses(photo: Value, f: FilterValues, cx: Context)
    ensures Kept(photo, f, cx).Some? <==> Passes(photo, f, cx)
  {
    var term := NormalizeSearch(f.search);
    if Passes(photo, f, cx) && term != "" {
      var cats := PhotoCategories(photo);
      var i :| 0 <= i < |cats| && CategoryMatches(cats[i], term);
      FilterMembers(cats, MatchesTerm(term), cats[i]);
    }
  }

  /** With a blank search the kept value is the record itself; with an
      active one it is the record with `categories` replaced by the non-empty,
      in-order list of its matching categories. */
  lemma KeptValue(photo: Value, f: FilterValues, cx: Context)
    requires Kept(photo, f, cx).Some?
    ensures var term := NormalizeSearch(f.search);
            term == "" ==> Kept(photo, f, cx).value == photo
    ensures var term := NormalizeSearch(f.search);
            var v := Kept(photo, f, cx).value;
            term != "" ==>
              && photo.Obj? && v.Obj?
              && Get(v, "categories") == Arr(Filter(PhotoCategories(photo), MatchesTerm(term)))
              && PhotoCategories(v) != []
              && (forall i :: 0 <= i < |PhotoCategories(v)| ==> CategoryMatches(PhotoCategories(v)[i], term))
              && (forall k :: k != "categories" ==> Get(v, k) == Get(photo, k))
  {
  }

  /** Every output entry comes from an input record with the same id and is
      that record's kept value. */
  lemma {:induction false} KeepEachSound(photos: Photos, keep: Value -> Option<Value>)
    ensures forall e :: e in KeepEach(photos, keep) ==>
              exists p :: p in photos && p.0 == e.0 && keep(p.1) == Some(e.1)
    decreases |photos|
  {
    if |photos| > 0 {
      KeepEachSound(photos[1..], keep);
      forall e | e in KeepEach(photos, keep)
        ensures exists p :: p in photos && p.0 == e.0 && keep(p.1) == Some(e.1)
      {
        if e !in KeepEach(photos[1..], keep) {
          assert keep(photos[0].1) == Some(e.1) && photos[0].0 == e.0;
          assert photos[0] in photos;
        } else {
          var p :| p in photos[1..] && p.0 == e.0 && keep(p.1) == Some(e.1);
          assert p in photos;
        }
      }
    }
  }

  /** `a` is `b` with some elements left out, order kept. */
  predicate SubsequenceOf<T(==)>(a: seq<T>, b: seq<T>)
    decreases |b|
  {
    if |a| == 0 then true
    else if |b| == 0 then false
    else if a[0] == b[0] then SubsequenceOf(a[1..], b[1..])
    else SubsequenceOf(a, b[1..])
  }

  lemma {:induction false} SubsequenceOfTail<T>(a: seq<T>, b: seq<T>)
    requires |b| > 0 && SubsequenceOf(a, b[1..])
    ensures SubsequenceOf(a, b)
    decreases |b|, |a|
  {
    if |a| > 0 && a[0] == b[0] {
      SubsequenceDropHead(a, b[1..]);
    }
  }

  lemma {:induction false} SubsequenceDropHead<T>(a: seq<T>, b: seq<T>)
    requires |a| > 0 && SubsequenceOf(a, b)
    ensures SubsequenceOf(a[1..], b)
    decreases |b|, |a|
  {
    if a[0] == b[0] {
      SubsequenceOfTail(a[1..], b);
    } else {
      SubsequenceDropHead(a, b[1..]);
      SubsequenceOfTail(a[1..], b);
    }
  }

  /** The output ids are input ids, in input order. */
  lemma {:induction false} KeepEachOrder(photos: Photos, keep: Value -> Option<Value>)
    ensures SubsequenceOf(KeysOf(KeepEach(photos, keep)), KeysOf(photos))
    decreases |photos|
  {
    if |photos| > 0 {
      KeepEachOrder(photos[1..], keep);
      var r := KeepEach(photos, keep);
      var rest := KeepEach(photos[1..], keep);
      assert KeysOf(photos)[1..] == KeysOf(photos[1..]);
      if keep(photos[0].1).Some? {
        assert KeysOf(r)[1..] == KeysOf(rest);
      } else {
        SubsequenceOfTail(KeysOf(r), KeysOf(photos));
      }
    }
  }

  /** A rule that keeps its own results unchanged makes the loop idempotent. */
  lemma {:induction false} KeepEachIdempotent(photos: Photos, keep: Value -> Option<Value>)
    requires forall v :: keep(v).Some? ==> keep(keep(v).value) == keep(v)
    ensures KeepEach(KeepEach(photos, keep), keep) == KeepEach(photos, keep)
    decreases |photos|
  {
    if |photos| > 0 {
      KeepEachIdempotent(photos[1..], keep);
      if keep(photos[0].1).Some? {
        var r := KeepEach(photos, keep);
        assert r[1..] == KeepEach(photos[1..], keep);
      }
    }
  }

  /** `filterPhotos` keeps, in order and under their ids, exactly the records
      passing every check, each as its kept value. */
  lemma FilterPhotosFacts(photos: Photos, f: FilterValues, cx: Context)
    ensures forall e :: e in FilterPhotos(photos, f, cx) ==>
              exists p :: p in photos && p.0 == e.0 && Passes(p.1, f, cx) && Kept(p.1, f, cx) == Some(e.1)
    ensures forall p :: p in photos && Passes(p.1, f, cx) ==>
              Kept(p.1, f, cx).Some? && (p.0, Kept(p.1, f, cx).value) in FilterPhotos(photos, f, cx)
    ensures SubsequenceOf(KeysOf(FilterPhotos(photos, f, cx)), KeysOf(photos))
  {
    var keep := KeepRule(f, cx);
    KeepEachSound(photos, keep);
    KeepEachOrder(photos, keep);
    forall e | e in FilterPhotos(photos, f, cx)
      ensures exists p :: p in photos && p.0 == e.0 && Passes(p.1, f, cx) && Kept(p.1, f, cx) == Some(e.1)
    {
      var p :| p in photos && p.0 == e.0 && keep(p.1) == Some(e.1);
      KeptIffPasses(p.1, f, cx);
    }
    forall p | p in photos && Passes(p.1, f, cx)
      ensures Kept(p.1, f, cx).Some? && (p.0, Kept(p.1, f, cx).value) in FilterPhotos(photos, f, cx)
    {
      KeptIffPasses(p.1, f, cx);
      KeepEachHas(photos, keep, p);
    }
  }

  /** A kept record is in the loop's output. */
  lemma {:induction false} KeepEachHas(photos: Photos, keep: Value -> Option<Value>, p: (string, Value))
    requires p in photos && keep(p.1).Some?
    ensures (p.0, keep(p.1).value) in KeepEach(photos, keep)
    decreases |photos|
  {
    if photos[0] != p {
      assert p in photos[1..];
      KeepEachHas(photos[1..], keep, p);
    }
  }

  /** A kept record is kept again, unchanged: none of the five checks reads
      `categories` except the brand/label check, which the narrowed list
      still passes, and narrowing it again changes nothing. */
  lemma KeptAgain(photo: Value, f: FilterValues, cx: Context)
    requires Kept(photo, f, cx).Some?
    ensures Kept(Kept(photo, f, cx).value, f, cx) == Kept(photo, f, cx)
  {
    var v := Kept(photo, f, cx).value;
    var term := NormalizeSearch(f.search);
    KeptValue(photo, f, cx);
    if term != "" {
      var matching := MatchingCategories(photo, term);
      SameChecksOutsideCategories(photo, v, f, cx);
      var cats := PhotoCategories(v);
      assert cats == matching;
      assert CategoryMatches(cats[0], term);
      FilterAll(cats, MatchesTerm(term));
      PutTwice(photo, "categories", Arr(matching));
    }
  }

  /** The country, status, pieces and date checks read no `categories`. */
  lemma SameChecksOutsideCategories(a: Value, b: Value, f: FilterValues, cx: Context)
    requires forall k :: k != "categories" ==> Get(a, k) == Get(b, k)
    ensures PassesCountry(a, f.country, cx) == PassesCountry(b, f.country, cx)
    ensures PassesStatus(a, f.status) == PassesStatus(b, f.status)
    ensures PassesPieces(a, f.minPieces) == PassesPieces(b, f.minPieces)
    ensures PassesDate(a, f.year, f.month, cx.parse) == PassesDate(b, f.year, f.month, cx.parse)
  {
    assert Get(a, "location") == Get(b, "location");
    assert Get(a, "published") == Get(b, "published") && Get(a, "moderated") == Get(b, "moderated");
    assert Get(a, "pieces") == Get(b, "pieces");
    assert Get(a, "updated") == Get(b, "updated") && Get(a, "created") == Get(b, "created");
    SameCountryInfo(a, b, cx);
    SameStatus(a, b, f.status);
    SamePieces(a, b, f.minPieces);
    SameDate(a, b, cx.parse);
  }

  lemma SameCountryInfo(a: Value, b: Value, cx: Context)
    requires Get(a, "location") == Get(b, "location")
    ensures CountryInfoForPhoto(a, cx.dictionary, cx.tables) == CountryInfoForPhoto(b, cx.dictionary, cx.tables)
  {
    assert PhotoCoordinates(a) == PhotoCoordinates(b) by {
      assert Latitude(a) == Latitude(b) && Longitude(a) == Longitude(b);
    }
    assert DictionaryEntry(a, cx.dictionary) == DictionaryEntry(b, cx.dictionary);
  }

  lemma SameStatus(a: Value, b: Value, status: string)
    requires Get(a, "published") == Get(b, "published") && Get(a, "moderated") == Get(b, "moderated")
    ensures PassesStatus(a, status) == PassesStatus(b, status)
  {
  }

  lemma SamePieces(a: Value, b: Value, minPieces: Number)
    requires Get(a, "pieces") == Get(b, "pieces")
    ensures PassesPieces(a, minPieces) == PassesPieces(b, minPieces)
  {
  }

  lemma SameDate(a: Value, b: Value, parse: DateParser)
    requires Get(a, "updated") == Get(b, "updated") && Get(a, "moderated") == Get(b, "moderated")
    requires Get(a, "created") == Get(b, "created")
    ensures PhotoDate(a, parse) == PhotoDate(b, parse)
  {
  }

  /** Filtering the output again with the same values returns it unchanged. */
  lemma FilterPhotosIdempotent(photos: Photos, f: FilterValues, cx: Context)
    ensures FilterPhotos(FilterPhotos(photos, f, cx), f, cx) == FilterPhotos(photos, f, cx)
  {
    var keep := KeepRule(f, cx);
    forall v | keep(v).Some? ensures keep(keep(v).value) == keep(v) {
      KeptAgain(v, f, cx);
    }
    KeepEachIdempotent(photos, keep);
  }

  // ---------------------------------------------------------------- country selection
  /** The keep-or-reset rule of `populateCountryOptions`: the previous
      selection survives only when it is the key of a dropdown row. */
  function SelectCountry(counts: seq<CountryCount>, selected: string): (r: string)
    ensures r == selected <==> selected == "" || exists j :: 0 <= j < |counts| && counts[j].key == selected
    ensures r != selected ==> r == ""
  {
    if exists j :: 0 <= j < |counts| && counts[j].key == selected then selected else ""
  }

  /** The selection that survives a rebuild of the dropdown is "" or the
      group key of some photo with a known country; a photo's own key, when
      its country is known, always survives. */
  lemma SelectionSurvives(photos: Photos, cx: Context, selected: string)
    ensures var r := SelectCountry(BuildCountryCounts(photos, cx.dictionary, cx.tables), selected);
            var infos := InfosOf(photos, cx.dictionary, cx.tables);
            r == "" || exists i :: 0 <= i < |infos| && KnownInfo(infos[i]) && infos[i].countryKey == r
    ensures var infos := InfosOf(photos, cx.dictionary, cx.tables);
            (exists i :: 0 <= i < |infos| && KnownInfo(infos[i]) && infos[i].countryKey == selected) ==>
              SelectCountry(BuildCountryCounts(photos, cx.dictionary, cx.tables), selected) == selected
  {
    var infos := InfosOf(photos, cx.dictionary, cx.tables);
    RankedKeysCome(infos);
    KnownKeysRanked(infos);
  }
}
