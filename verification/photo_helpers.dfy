/** Accessors that turn a raw, loosely typed photo record into the numbers,
    flags, dates, categories and coordinates the rest of the dashboard uses
    (js/photo-helpers.js). */
module PhotoHelpers {
  import opened Base
  import opened Text
  import opened Js
  import opened DateUtils
  import opened Coords

  /** A snapshot of records keyed by id, in `Object.keys` order; a missing
      snapshot (`photos || {}`) is the empty sequence. */
  type Photos = seq<(string, Value)>

  /** `x >= 0` for a number (false for NaN). */
  predicate NonNegative(n: Number) {
    Le(Zero, n)
  }

  /** `getPieces`: `Math.max(0, Number(photo.pieces) || 0)`. */
  function Pieces(photo: Value): (r: Number)
    ensures NonNegative(r)
    ensures !Lt(Zero, ToNumber(Get(photo, "pieces"))) ==> r == Zero
    ensures Lt(Zero, ToNumber(Get(photo, "pieces"))) ==> r == ToNumber(Get(photo, "pieces"))
  {
    var n := ToNumber(Get(photo, "pieces"));
    var m := if Truthy(Num(n)) then n else Zero;
    if Lt(Zero, m) then m else Zero
  }

  /** A missing or non-numeric `pieces` field counts as no pieces. */
  lemma PiecesOfMissing(photo: Value)
    requires ToNumber(Get(photo, "pieces")).NaN?
    ensures Pieces(photo) == Zero
  {
  }

  /** `isModerated`: a boolean `published` decides; so does a string `published`
      reading "true" or "false" after trimming and lower-casing; anything else
      falls back to the truthiness of `moderated`. */
  predicate IsModerated(photo: Value) {
    var published := Get(photo, "published");
    if published.Bool? then published.b
    else if published.Str? && ToLower(Trim(published.s)) == "true" then true
    else if published.Str? && ToLower(Trim(published.s)) == "false" then false
    else Truthy(Get(photo, "moderated"))
  }

  /** The `published` flag's own verdict, when it gives one. */
  function PublishedVerdict(photo: Value): Option<bool> {
    var published := Get(photo, "published");
    if published.Bool? then Some(published.b)
    else if published.Str? && ToLower(Trim(published.s)) == "true" then Some(true)
    else if published.Str? && ToLower(Trim(published.s)) == "false" then Some(false)
    else None
  }

  /** The `published` flag takes precedence over `moderated`: whatever
      `moderated` holds, a verdict from `published` decides. */
  lemma PublishedTakesPrecedence(photo: Value, moderated: Value)
    requires photo.Obj?
    requires PublishedVerdict(photo).Some?
    ensures IsModerated(Put(photo, "moderated", moderated)) == PublishedVerdict(photo).value
    ensures IsModerated(photo) == PublishedVerdict(photo).value
  {
  }

  /** Without a verdict from `published`, `moderated` alone decides. */
  lemma ModeratedFallback(photo: Value)
    requires PublishedVerdict(photo).None?
    ensures IsModerated(photo) == Truthy(Get(photo, "moderated"))
  {
  }

  /** `getPhotoDate`: the first truthy of `updated`, `moderated`, `created`,
      parsed; `None` when none is set or the text is not a valid date. */
  function PhotoDate(photo: Value, parse: DateParser): (r: Option<Date>)
    ensures Truthy(Get(photo, "updated")) ==> r == parse(Get(photo, "updated"))
    ensures !Truthy(Get(photo, "updated")) && Truthy(Get(photo, "moderated")) ==> r == parse(Get(photo, "moderated"))
    ensures !Truthy(Get(photo, "updated")) && !Truthy(Get(photo, "moderated")) ==>
              r == if Truthy(Get(photo, "created")) then parse(Get(photo, "created")) else None
  {
    var s := Or(Or(Get(photo, "updated"), Get(photo, "moderated")), Get(photo, "created"));
    if !Truthy(s) then None else parse(s)
  }

  /** `getPhotoCategories`: the `categories` array, or an empty list. */
  function PhotoCategories(photo: Value): (r: seq<Value>)
    ensures Get(photo, "categories").Arr? ==> r == Get(photo, "categories").items
    ensures !Get(photo, "categories").Arr? ==> r == []
  {
    var c := Get(photo, "categories");
    if c.Arr? then c.items else []
  }

  /** `number > 0` for a finite number. */
  predicate Positive(n: Number) {
    n.Fin? && Lt(Zero, n)
  }

  /** `getCategoryCount`: a finite positive `number`, otherwise 1. */
  function CategoryCount(category: Value): (r: Number)
    ensures Positive(r)
    ensures Positive(ToNumber(Get(category, "number"))) ==> r == ToNumber(Get(category, "number"))
    ensures !Positive(ToNumber(Get(category, "number"))) ==> r == One
  {
    var n := ToNumber(Get(category, "number"));
    if n.Fin? && Lt(Zero, n) then n else One
  }

  /** `getCategoryValue`: the trimmed field text, or "undefined" when blank. */
  function CategoryValue(category: Value, field: string): (r: string)
    ensures |r| > 0 && Trimmed(r)
    ensures Trim(TextOr(Get(category, field))) != "" ==> r == Trim(TextOr(Get(category, field)))
    ensures Trim(TextOr(Get(category, field))) == "" ==> r == "undefined"
  {
    var raw := Trim(TextOr(Get(category, field)));
    if raw == "" then "undefined" else raw
  }

  /** A finite latitude/longitude pair. */
  datatype Coordinates = Coordinates(lat: Number, lon: Number)

  function Latitude(photo: Value): Number {
    ToNumber(Get(Get(photo, "location"), "_latitude"))
  }

  function Longitude(photo: Value): Number {
    ToNumber(Get(Get(photo, "location"), "_longitude"))
  }

  /** `getPhotoCoordinates`: both coordinates finite and not both exactly 0. */
  function PhotoCoordinates(photo: Value): (r: Option<Coordinates>)
    ensures r.Some? <==> Latitude(photo).Fin? && Longitude(photo).Fin?
                         && !(NumEq(Latitude(photo), Zero) && NumEq(Longitude(photo), Zero))
    ensures r.Some? ==> r.value == Coordinates(Latitude(photo), Longitude(photo))
  {
    var lat, lon := Latitude(photo), Longitude(photo);
    if !lat.Fin? || !lon.Fin? then None
    else if NumEq(lat, Zero) && NumEq(lon, Zero) then None
    else Some(Coordinates(lat, lon))
  }

  /** A point on the equator or the prime meridian alone is still a location. */
  lemma OneZeroCoordinateKept(photo: Value)
    requires Latitude(photo) == Zero
    requires Longitude(photo).Fin? && !NumEq(Longitude(photo), Zero)
    ensures PhotoCoordinates(photo).Some?
  {
  }

  const UndefinedKey := "undefined"

  /** `getPhotoLocationKey`: "lat, lon" with two decimals, or "undefined". */
  function PhotoLocationKey(photo: Value): (r: string)
    ensures r == UndefinedKey <==> PhotoCoordinates(photo).None?
    ensures PhotoCoordinates(photo).Some? ==>
              var c := PhotoCoordinates(photo).value;
              ParsePairKey(r, CommaSpace) == Some((Hundredths(c.lat), Hundredths(c.lon)))
  {
    match PhotoCoordinates(photo)
    case None => UndefinedKey
    case Some(c) =>
      PairKeyRoundTrip(c.lat, c.lon, CommaSpace);
      assert ParsePairKey(UndefinedKey, CommaSpace).None? by {
        assert Split(UndefinedKey, ',') == [UndefinedKey] by {
          SplitNoSeparator(UndefinedKey, ',');
        }
      }
      PairKey(c.lat, c.lon, CommaSpace)
  }
}
