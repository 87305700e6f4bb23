/** The pure parts of js/location.js: coordinate keys, the offline resolution
    table and its nearest-point search, the location dictionary (load,
    sanitise, build), and the per-photo country information and country
    counts the country dropdown is built from. Network providers are
    parameters; `localStorage` is a `Stored` value. */
module Location {
  import opened Base
  import opened Text
  import opened Js
  import opened Sums
  import opened Groups
  import opened Sorting
  import opened Ranking
  import opened Coords
  import opened PhotoHelpers
  import opened Geo

  // ---------------------------------------------------------------- coordinates

  /** A photo's id with its finite coordinates. */
  datatype Located = Located(id: string, lat: Number, lon: Number)

  /** `getAllCoordinates`: the photos that have coordinates, in key order. */
  function AllCoordinates(photos: Photos): (r: seq<Located>)
    ensures |r| <= |photos|
    ensures forall i :: 0 <= i < |r| ==> r[i].lat.Fin? && r[i].lon.Fin?
  {
    if |photos| == 0 then []
    else
      var here := match PhotoCoordinates(photos[0].1)
                  case None => []
                  case Some(c) => [Located(photos[0].0, c.lat, c.lon)];
      here + AllCoordinates(photos[1..])
  }

  /** A located item appears exactly for a photo with those coordinates. */
  lemma {:induction false} AllCoordinatesMembers(photos: Photos, x: Located)
    ensures x in AllCoordinates(photos) <==>
              exists i :: 0 <= i < |photos| && photos[i].0 == x.id
                          && PhotoCoordinates(photos[i].1) == Some(PhotoHelpers.Coordinates(x.lat, x.lon))
    decreases |photos|
  {
    if |photos| > 0 {
      AllCoordinatesMembers(photos[1..], x);
      var rest := AllCoordinates(photos[1..]);
      if x in AllCoordinates(photos) && x !in rest {
        assert photos[0].0 == x.id;
      }
      if x in rest {
        var i :| 0 <= i < |photos[1..]| && photos[1..][i].0 == x.id
                 && PhotoCoordinates(photos[1..][i].1) == Some(PhotoHelpers.Coordinates(x.lat, x.lon));
        assert photos[i + 1] == photos[1..][i];
      }
      forall i | 1 <= i < |photos| && photos[i].0 == x.id
                 && PhotoCoordinates(photos[i].1) == Some(PhotoHelpers.Coordinates(x.lat, x.lon))
        ensures x in rest
      {
        assert photos[1..][i - 1] == photos[i];
      }
    }
  }

  /** `coordinateKey`: the dictionary key, `"lat,lon"` with two decimals. */
  function CoordinateKey(lat: Number, lon: Number): (r: string)
    ensures lat.Fin? && lon.Fin? ==> ParsePairKey(r, CommaOnly) == Some((Hundredths(lat), Hundredths(lon)))
  {
    var r := PairKey(lat, lon, CommaOnly);
    assert lat.Fin? && lon.Fin? ==> ParsePairKey(r, CommaOnly) == Some((Hundredths(lat), Hundredths(lon))) by {
      if lat.Fin? && lon.Fin? {
        PairKeyRoundTrip(lat, lon, CommaOnly);
      }
    }
    r
  }

  /** `DICTIONARY_KEY_PATTERN.test(key)`: `/^-?\d+\.\d{2},-?\d+\.\d{2}$/`. */
  predicate IsDictionaryKey(key: string) {
    IsPairKey(key, CommaOnly)
  }

  /** An entry of `getUniqueCoordinates`. */
  datatype UniqueCoordinate = UniqueCoordinate(key: string, lat: Number, lon: Number)

  function KeyOf(x: Located): string {
    CoordinateKey(x.lat, x.lon)
  }

  /** The `unique` map after the first `|items|` items: a key seen before
      keeps its first coordinates. */
  function UniqueTable(items: seq<Located>): (t: Table<string, UniqueCoordinate>)
    decreases |items|
  {
    if |items| == 0 then []
    else
      var t := UniqueTable(items[..|items| - 1]);
      var x := items[|items| - 1];
      if KeyOf(x) in KeysOf(t) then t
      else t + [(KeyOf(x), UniqueCoordinate(KeyOf(x), x.lat, x.lon))]
  }

  /** No earlier item has the same key. */
  predicate FirstWithKey(items: seq<Located>, j: int)
    requires 0 <= j < |items|
  {
    forall i :: 0 <= i < j ==> KeyOf(items[i]) != KeyOf(items[j])
  }

  function Unique(x: Located): UniqueCoordinate {
    UniqueCoordinate(KeyOf(x), x.lat, x.lon)
  }

  /** `getUniqueCoordinates`. */
  function UniqueCoordinates(photos: Photos): seq<UniqueCoordinate> {
    ValuesOf(UniqueTable(AllCoordinates(photos)))
  }

  /** The unique-coordinate table has distinct keys and stores each entry
      under its own key. */
  lemma {:induction false} UniqueTableKeys(items: seq<Located>)
    ensures UniqueKeys(UniqueTable(items))
    ensures KeyedBy(UniqueTable(items), (u: UniqueCoordinate) => u.key)
    decreases |items|
  {
    if |items| > 0 {
      var n := |items| - 1;
      UniqueTableKeys(items[..n]);
      var t := UniqueTable(items[..n]);
      var x := items[n];
      if KeyOf(x) !in KeysOf(t) {
        var r := UniqueTable(items);
        assert r == t + [(KeyOf(x), Unique(x))];
        forall i, j | 0 <= i < j < |r| ensures r[i].0 != r[j].0 {
          if j == n || j == |t| {
            assert r[i].0 == KeysOf(t)[i];
          }
        }
      }
    }
  }

  /** Every item's key is in the table. */
  lemma {:induction false} UniqueTableCovers(items: seq<Located>)
    ensures forall j :: 0 <= j < |items| ==> KeyOf(items[j]) in KeysOf(UniqueTable(items))
    decreases |items|
  {
    if |items| > 0 {
      var n := |items| - 1;
      var prefix := items[..n];
      UniqueTableCovers(prefix);
      UniqueTableGrows(items);
      forall j | 0 <= j < |items| ensures KeyOf(items[j]) in KeysOf(UniqueTable(items)) {
        if j < n {
          assert prefix[j] == items[j];
        }
      }
    }
  }

  /** One more item keeps every key of the table and adds its own. */
  lemma UniqueTableGrows(items: seq<Located>)
    requires |items| > 0
    ensures var n := |items| - 1;
            && KeyOf(items[n]) in KeysOf(UniqueTable(items))
            && forall k :: k in KeysOf(UniqueTable(items[..n])) ==> k in KeysOf(UniqueTable(items))
  {
    var n := |items| - 1;
    var t := UniqueTable(items[..n]);
    var x := items[n];
    if KeyOf(x) !in KeysOf(t) {
      assert UniqueTable(items) == t + [(KeyOf(x), Unique(x))];
      KeysOfAppend(t, (KeyOf(x), Unique(x)));
    }
  }

  /** For each key the table keeps the first item that has it. */
  lemma {:induction false} UniqueTableFirst(items: seq<Located>, j: int)
    requires 0 <= j < |items| && FirstWithKey(items, j)
    ensures Lookup(UniqueTable(items), KeyOf(items[j])) == Some(Unique(items[j]))
    decreases |items|
  {
    var n := |items| - 1;
    var prefix := items[..n];
    var t := UniqueTable(prefix);
    var x := items[n];
    if j < n {
      assert prefix[j] == items[j];
      assert FirstWithKey(prefix, j) by {
        forall i | 0 <= i < j ensures KeyOf(prefix[i]) != KeyOf(prefix[j]) {
          assert prefix[i] == items[i];
        }
      }
      UniqueTableFirst(prefix, j);
      if KeyOf(x) !in KeysOf(t) {
        LookupAppend(t, (KeyOf(x), Unique(x)), KeyOf(items[j]));
      }
    } else {
      if KeyOf(x) in KeysOf(t) {
        var i :| 0 <= i < |t| && t[i].0 == KeyOf(x);
        KeyedItemHasSource(prefix, i);
        assert false;
      }
      LookupAppend(t, (KeyOf(x), Unique(x)), KeyOf(x));
    }
  }

  /** Every entry of the table came from an earlier item with its key. */
  lemma {:induction false} KeyedItemHasSource(items: seq<Located>, i: int)
    requires 0 <= i < |UniqueTable(items)|
    ensures exists j :: 0 <= j < |items| && KeyOf(items[j]) == UniqueTable(items)[i].0
    decreases |items|
  {
    var n := |items| - 1;
    var t := UniqueTable(items[..n]);
    if i < |t| {
      KeyedItemHasSource(items[..n], i);
      var j :| 0 <= j < n && KeyOf(items[..n][j]) == t[i].0;
      assert items[j] == items[..n][j];
    } else {
      assert KeyOf(items[n]) == UniqueTable(items)[i].0;
    }
  }

  /** Looking up in a table extended by one new entry. */
  lemma {:induction false} LookupAppend<K, V>(t: Table<K, V>, entry: (K, V), k: K)
    requires entry.0 !in KeysOf(t)
    ensures Lookup(t + [entry], k) == if k == entry.0 then Some(entry.1) else Lookup(t, k)
    decreases |t|
  {
    if |t| == 0 {
    } else {
      assert (t + [entry])[1..] == t[1..] + [entry];
      assert KeysOf(t) == [t[0].0] + KeysOf(t[1..]);
      LookupAppend(t[1..], entry, k);
    }
  }

  /** `getUniqueCoordinates` gives each key once; every photo with
      coordinates has its key among them, and every key there matches the
      dictionary key pattern. */
  lemma UniqueCoordinatesFacts(photos: Photos)
    ensures DistinctBy(UniqueCoordinates(photos), (u: UniqueCoordinate) => u.key)
    ensures forall i :: 0 <= i < |UniqueCoordinates(photos)| ==> IsDictionaryKey(UniqueCoordinates(photos)[i].key)
    ensures forall i :: 0 <= i < |photos| && PhotoCoordinates(photos[i].1).Some? ==>
              var c := PhotoCoordinates(photos[i].1).value;
              exists j :: 0 <= j < |UniqueCoordinates(photos)| && UniqueCoordinates(photos)[j].key == CoordinateKey(c.lat, c.lon)
  {
    UniqueCoordinatesDistinct(photos);
    UniqueCoordinatesAreKeys(photos);
    UniqueCoordinatesCover(photos);
  }

  lemma UniqueCoordinatesDistinct(photos: Photos)
    ensures DistinctBy(UniqueCoordinates(photos), (u: UniqueCoordinate) => u.key)
  {
    var items := AllCoordinates(photos);
    UniqueTableKeys(items);
    KeyedValuesDistinct(UniqueTable(items), (u: UniqueCoordinate) => u.key);
  }

  lemma UniqueCoordinatesAreKeys(photos: Photos)
    ensures forall i :: 0 <= i < |UniqueCoordinates(photos)| ==> IsDictionaryKey(UniqueCoordinates(photos)[i].key)
  {
    var items := AllCoordinates(photos);
    var t := UniqueTable(items);
    UniqueTableKeys(items);
    var r := UniqueCoordinates(photos);
    forall i | 0 <= i < |r| ensures IsDictionaryKey(r[i].key) {
      KeyedItemHasSource(items, i);
      var j :| 0 <= j < |items| && KeyOf(items[j]) == t[i].0;
      PairKeyShape(items[j].lat, items[j].lon, CommaOnly);
    }
  }

  lemma UniqueCoordinatesCover(photos: Photos)
    ensures forall i :: 0 <= i < |photos| && PhotoCoordinates(photos[i].1).Some? ==>
              var c := PhotoCoordinates(photos[i].1).value;
              exists j :: 0 <= j < |UniqueCoordinates(photos)| && UniqueCoordinates(photos)[j].key == CoordinateKey(c.lat, c.lon)
  {
    forall i | 0 <= i < |photos| && PhotoCoordinates(photos[i].1).Some?
      ensures var c := PhotoCoordinates(photos[i].1).value;
              exists j :: 0 <= j < |UniqueCoordinates(photos)| && UniqueCoordinates(photos)[j].key == CoordinateKey(c.lat, c.lon)
    {
      PhotoKeyListed(photos, i);
    }
  }

  /** The key of one photo with coordinates is among the unique coordinates. */
  lemma PhotoKeyListed(photos: Photos, i: int)
    requires 0 <= i < |photos| && PhotoCoordinates(photos[i].1).Some?
    ensures var c := PhotoCoordinates(photos[i].1).value;
            exists j :: 0 <= j < |UniqueCoordinates(photos)| && UniqueCoordinates(photos)[j].key == CoordinateKey(c.lat, c.lon)
  {
    var c := PhotoCoordinates(photos[i].1).value;
    var items := AllCoordinates(photos);
    var x := Located(photos[i].0, c.lat, c.lon);
    AllCoordinatesMembers(photos, x);
    var k :| 0 <= k < |items| && items[k] == x;
    UniqueTableCovers(items);
    UniqueTableKeys(items);
    var j := KeyListed(UniqueTable(items), KeyOf(items[k]));
    assert UniqueCoordinates(photos)[j].key == CoordinateKey(c.lat, c.lon);
  }

  /** A key of a table keyed by its values' keys is the key of one of its values. */
  lemma KeyListed(t: Table<string, UniqueCoordinate>, k: string) returns (j: int)
    requires KeyedBy(t, (u: UniqueCoordinate) => u.key) && k in KeysOf(t)
    ensures 0 <= j < |ValuesOf(t)| && ValuesOf(t)[j].key == k
  {
    j :| 0 <= j < |t| && KeysOf(t)[j] == k;
    assert ValuesOf(t)[j] == t[j].1;
  }

  // ---------------------------------------------------------------- resolution table

  /** `toResolutionKey`: the resolution-table key, `"lat, lon"` with two
      decimals (a different separator from the dictionary key). */
  function ToResolutionKey(lat: Number, lon: Number): (r: string)
    ensures lat.Fin? && lon.Fin? ==> ParsePairKey(r, CommaSpace) == Some((Hundredths(lat), Hundredths(lon)))
    ensures lat.Fin? && lon.Fin? ==> !IsDictionaryKey(r) && r != CoordinateKey(lat, lon)
  {
    var r := PairKey(lat, lon, CommaSpace);
    assert lat.Fin? && lon.Fin? ==> ParsePairKey(r, CommaSpace) == Some((Hundredths(lat), Hundredths(lon)))
                                    && !IsDictionaryKey(r) && r != CoordinateKey(lat, lon) by {
      if lat.Fin? && lon.Fin? {
        PairKeyRoundTrip(lat, lon, CommaSpace);
        SeparatorsDiffer(lat, lon, lat, lon);
        ResolutionKeyIsNotDictionaryKey(lat, lon);
      }
    }
    r
  }

  /** A comma-space key never passes the dictionary key pattern. */
  lemma ResolutionKeyIsNotDictionaryKey(lat: Number, lon: Number)
    requires lat.Fin? && lon.Fin?
    ensures !IsDictionaryKey(PairKey(lat, lon, CommaSpace))
  {
    var a, b := ToFixed2(lat), ToFixed2(lon);
    ToFixed2Shape(lat);
    ToFixed2Shape(lon);
    Fixed2HasNoComma(a);
    Fixed2HasNoComma(b);
    SplitJoined(a, b, CommaSpace);
    var second := " " + b;
    if IsFixed2Text(second) {
      Fixed2StartsWithDigitOrMinus(second);
      assert false;
    }
  }

  function Square(x: real): real {
    x * x
  }

  /** `distanceSquared`. */
  function DistanceSquared(aLat: Number, aLon: Number, bLat: Number, bLon: Number): (r: Number)
    ensures aLat.Fin? && aLon.Fin? && bLat.Fin? && bLon.Fin? ==>
              r.Fin? && Val(r) == Square(Val(aLat) - Val(bLat)) + Square(Val(aLon) - Val(bLon))
  {
    var dLat := Sub(aLat, bLat);
    var dLon := Sub(aLon, bLon);
    var r := Add(Mul(dLat, dLat), Mul(dLon, dLon));
    assert aLat.Fin? && aLon.Fin? && bLat.Fin? && bLon.Fin? ==>
             r.Fin? && Val(r) == Square(Val(aLat) - Val(bLat)) + Square(Val(aLon) - Val(bLon)) by {
      if aLat.Fin? && aLon.Fin? && bLat.Fin? && bLon.Fin? {
        SubVal(aLat, bLat);
        SubVal(aLon, bLon);
        SquareSumVal(dLat, dLon);
      }
    }
    r
  }

  lemma SquareSumVal(x: Number, y: Number)
    requires x.Fin? && y.Fin?
    ensures Add(Mul(x, x), Mul(y, y)).Fin?
    ensures Val(Add(Mul(x, x), Mul(y, y))) == Square(Val(x)) + Square(Val(y))
  {
    var a, b := Mul(x, x), Mul(y, y);
    SquareVal(x);
    SquareVal(y);
    AddVal(a, b);
  }

  lemma SquareVal(x: Number)
    requires x.Fin?
    ensures Mul(x, x).Fin? && Val(Mul(x, x)) == Square(Val(x))
  {
    MulVal(x, x);
  }

  /** The squared distance between finite points is never negative, is zero
      from a point to itself, and does not depend on the direction. */
  lemma DistanceFacts(aLat: Number, aLon: Number, bLat: Number, bLon: Number)
    requires aLat.Fin? && aLon.Fin? && bLat.Fin? && bLon.Fin?
    ensures Le(Zero, DistanceSquared(aLat, aLon, bLat, bLon))
    ensures NumEq(DistanceSquared(aLat, aLon, aLat, aLon), Zero)
    ensures NumEq(DistanceSquared(aLat, aLon, bLat, bLon), DistanceSquared(bLat, bLon, aLat, aLon))
  {
    DistanceNonNegative(aLat, aLon, bLat, bLon);
    DistanceToSelf(aLat, aLon);
    DistanceSymmetric(aLat, aLon, bLat, bLon);
  }

  lemma DistanceNonNegative(aLat: Number, aLon: Number, bLat: Number, bLon: Number)
    requires aLat.Fin? && aLon.Fin? && bLat.Fin? && bLon.Fin?
    ensures Le(Zero, DistanceSquared(aLat, aLon, bLat, bLon))
  {
    var d := DistanceSquared(aLat, aLon, bLat, bLon);
    SquareFacts(Val(aLat) - Val(bLat));
    SquareFacts(Val(aLon) - Val(bLon));
    assert Val(d) >= 0.0;
    assert Val(Zero) == 0.0;
  }

  lemma DistanceToSelf(lat: Number, lon: Number)
    requires lat.Fin? && lon.Fin?
    ensures NumEq(DistanceSquared(lat, lon, lat, lon), Zero)
  {
    var d := DistanceSquared(lat, lon, lat, lon);
    assert Val(lat) - Val(lat) == 0.0 && Val(lon) - Val(lon) == 0.0;
    assert Square(0.0) == 0.0;
    assert Val(d) == 0.0;
    assert Val(Zero) == 0.0;
  }

  lemma DistanceSymmetric(aLat: Number, aLon: Number, bLat: Number, bLon: Number)
    requires aLat.Fin? && aLon.Fin? && bLat.Fin? && bLon.Fin?
    ensures NumEq(DistanceSquared(aLat, aLon, bLat, bLon), DistanceSquared(bLat, bLon, aLat, aLon))
  {
    var x, y := Val(aLat) - Val(bLat), Val(aLon) - Val(bLon);
    SquareFacts(x);
    SquareFacts(y);
    assert Val(bLat) - Val(aLat) == -x && Val(bLon) - Val(aLon) == -y;
  }

  lemma SquareFacts(x: real)
    ensures Square(x) >= 0.0 && Square(-x) == Square(x)
  {
    if x < 0.0 {
      assert (-x) * (-x) > 0.0;
    }
  }

  /** A row of the resolution table. */
  datatype ResolutionPoint = ResolutionPoint(lat: Number, lon: Number, country: string)

  /** Rows that made it into the table: finite coordinates and a known country. */
  predicate KnownPoint(p: ResolutionPoint) {
    p.lat.Fin? && p.lon.Fin? && p.country != UnknownCountry && p.country != ""
  }

  /** The loaded table: `byKey` (a `Map`, a later row overwriting an earlier
      one with the same key) and `points`, every accepted row in order. */
  datatype ResolutionLookup = ResolutionLookup(byKey: Table<string, ResolutionPoint>, points: seq<ResolutionPoint>)

  const EmptyLookup := ResolutionLookup([], [])

  /** The row filter of `getResolutionLookup`: a row is kept under its
      trimmed `key` (or the key built from its coordinates) when its country
      normalises to a known one and both coordinates are finite. */
  function ResolutionRow(row: Value, t: Tables): (r: Option<(string, ResolutionPoint)>)
    ensures r.Some? <==> NormalizeCountryName(Get(row, "country"), t) != UnknownCountry
                         && ToNumber(Get(row, "lat")).Fin? && ToNumber(Get(row, "lon")).Fin?
    ensures r.Some? ==> KnownPoint(r.value.1) && r.value.0 != ""
    ensures r.Some? && Trim(TextOr(Get(row, "key"))) == "" ==>
              r.value.0 == ToResolutionKey(r.value.1.lat, r.value.1.lon)
  {
    var country := NormalizeCountryName(Get(row, "country"), t);
    var lat := ToNumber(Get(row, "lat"));
    var lon := ToNumber(Get(row, "lon"));
    if country == UnknownCountry then None
    else if !lat.Fin? || !lon.Fin? then None
    else
      var given := Trim(TextOr(Get(row, "key")));
      var key := if given != "" then given else ToResolutionKey(lat, lon);
      assert key != "" by {
        if given == "" {
          PairKeyShape(lat, lon, CommaSpace);
          assert ToResolutionKey(lat, lon) != "" by {
            SplitEmpty();
          }
        }
      }
      Some((key, ResolutionPoint(lat, lon, country)))
  }

  lemma SplitEmpty()
    ensures !IsPairKey("", CommaSpace)
  {
    SplitNoSeparator("", ',');
  }

  /** Adds one row, as the loop body does. */
  function AddRow(lookup: ResolutionLookup, row: Value, t: Tables): ResolutionLookup {
    match ResolutionRow(row, t)
    case None => lookup
    case Some((key, p)) => ResolutionLookup(Upsert(lookup.byKey, key, _ => p), lookup.points + [p])
  }

  function AddRows(lookup: ResolutionLookup, rows: seq<Value>, t: Tables): ResolutionLookup
    decreases |rows|
  {
    if |rows| == 0 then lookup else AddRows(AddRow(lookup, rows[0], t), rows[1..], t)
  }

  /** `getResolutionLookup`: the rows of `payload.locations` when it is an
      array; a failed fetch (`null`) or any other payload gives an empty table. */
  function BuildResolutionLookup(payload: Value, t: Tables): ResolutionLookup {
    var rows := Get(payload, "locations");
    if rows.Arr? then AddRows(EmptyLookup, rows.items, t) else EmptyLookup
  }

  /** Every point is a known one, and every keyed entry is one of the points. */
  ghost predicate WellFormedLookup(lookup: ResolutionLookup) {
    && (forall i :: 0 <= i < |lookup.points| ==> KnownPoint(lookup.points[i]))
    && (forall i :: 0 <= i < |lookup.byKey| ==> lookup.byKey[i].1 in lookup.points)
    && UniqueKeys(lookup.byKey)
  }

  lemma AddRowWellFormed(lookup: ResolutionLookup, row: Value, t: Tables)
    requires WellFormedLookup(lookup)
    ensures WellFormedLookup(AddRow(lookup, row, t))
  {
    var r := ResolutionRow(row, t);
    if r.Some? {
      var key, p := r.value.0, r.value.1;
      var next := AddRow(lookup, row, t);
      var f := (_: Option<ResolutionPoint>) => p;
      assert next == ResolutionLookup(Upsert(lookup.byKey, key, f), lookup.points + [p]);
      UpsertKeepsUnique(lookup.byKey, key, f);
      var inPoints := (v: ResolutionPoint) => v in next.points;
      assert AllValues(lookup.byKey, inPoints);
      UpsertKeepsValues(lookup.byKey, key, f, inPoints);
    }
  }

  lemma {:induction false} AddRowsWellFormed(lookup: ResolutionLookup, rows: seq<Value>, t: Tables)
    requires WellFormedLookup(lookup)
    ensures WellFormedLookup(AddRows(lookup, rows, t))
    decreases |rows|
  {
    if |rows| > 0 {
      AddRowWellFormed(lookup, rows[0], t);
      AddRowsWellFormed(AddRow(lookup, rows[0], t), rows[1..], t);
    }
  }

  /** Rows with an unknown country or a non-finite coordinate are never in
      the table, and every keyed entry is one of its points. */
  lemma ResolutionLookupWellFormed(payload: Value, t: Tables)
    ensures WellFormedLookup(BuildResolutionLookup(payload, t))
  {
    var rows := Get(payload, "locations");
    if rows.Arr? {
      AddRowsWellFormed(EmptyLookup, rows.items, t);
    }
  }

  // ---------------------------------------------------------------- nearest point

  /** The squared distance from the query point to every table point. */
  function Distances(points: seq<ResolutionPoint>, lat: Number, lon: Number): (ds: seq<Number>)
    ensures |ds| == |points|
    ensures forall i :: 0 <= i < |ds| ==> ds[i] == DistanceSquared(lat, lon, points[i].lat, points[i].lon)
  {
    seq(|points|, i requires 0 <= i < |points| => DistanceSquared(lat, lon, points[i].lat, points[i].lon))
  }

  /** Where a scan that replaces its best on a strictly smaller distance
      (starting from `Infinity`) settles: the distance at `k` is below
      infinity, no earlier distance is as small, and no later one smaller. */
  predicate IsFirstLeast(ds: seq<Number>, k: nat) {
    && k < |ds| && Lt(ds[k], PosInf)
    && (forall j :: 0 <= j < k ==> !Le(ds[j], ds[k]))
    && (forall j :: k < j < |ds| ==> !Lt(ds[j], ds[k]))
  }

  /** No distance is below infinity, so the scan never moves. */
  predicate NoneBelowInfinity(ds: seq<Number>) {
    forall j :: 0 <= j < |ds| ==> !Lt(ds[j], PosInf)
  }

  /** At most one position is the first least one. */
  lemma FirstLeastUnique(ds: seq<Number>, a: nat, b: nat)
    requires IsFirstLeast(ds, a) && IsFirstLeast(ds, b)
    ensures a == b
  {
  }

  /** The scan of `fetchCountryFromResolutionData`. */
  method FirstLeast(ds: seq<Number>) returns (k: Option<nat>)
    ensures k.None? <==> NoneBelowInfinity(ds)
    ensures k.Some? ==> IsFirstLeast(ds, k.value)
  {
    k := None;
    var best := PosInf;
    var i := 0;
    while i < |ds|
      invariant 0 <= i <= |ds|
      invariant k.None? ==> best == PosInf && NoneBelowInfinity(ds[..i])
      invariant k.Some? ==> && k.value < i && best == ds[k.value] && Lt(best, PosInf)
                            && (forall j :: 0 <= j < k.value ==> !Le(ds[j], best))
                            && (forall j :: k.value < j < i ==> !Lt(ds[j], best))
    {
      if Lt(ds[i], best) {
        forall j | 0 <= j < i ensures !Le(ds[j], ds[i]) {
          if k.Some? && j < k.value {
            assert !Le(ds[j], best);
          } else if k.Some? && k.value < j && !ds[j].NaN? {
            assert Le(best, ds[j]);
          } else if k.None? {
            assert ds[..i][j] == ds[j];
          }
        }
        k := Some(i);
        best := ds[i];
      } else {
        assert k.None? ==> ds[..i + 1] == ds[..i] + [ds[i]];
      }
      i := i + 1;
    }
    assert ds[..i] == ds;
  }

  /** `RESOLUTION_NEAREST_MAX_DISTANCE`, in degrees. */
  const MaxDistance: Number := Fin(35, 2)

  /** `maxDistanceSq`, the exact square 0.1225 (floating-point rounding left out). */
  const MaxDistanceSquared: Number := Mul(MaxDistance, MaxDistance)

  /** The entry the table answers with: the country doubles as the label. */
  function CountryEntry(country: string): LocationEntry {
    LocationEntry(country, country, "")
  }

  /** The answer for the first nearest point `k`: its country when it lies
      within the maximum distance, otherwise unknown. */
  function NearestAnswer(lookup: ResolutionLookup, lat: Number, lon: Number, k: nat): LocationEntry
    requires k < |lookup.points|
  {
    var ds := Distances(lookup.points, lat, lon);
    if Le(ds[k], MaxDistanceSquared) then CountryEntry(lookup.points[k].country) else UnknownEntry
  }

  /** The table's answer, stated without the scan: the exact key's country;
      otherwise the answer of the first nearest point, when some distance is
      below infinity; otherwise the unknown entry. */
  ghost function TableAnswer(lookup: ResolutionLookup, lat: Number, lon: Number): LocationEntry {
    var exact := Lookup(lookup.byKey, ToResolutionKey(lat, lon));
    var ds := Distances(lookup.points, lat, lon);
    if exact.Some? then CountryEntry(exact.value.country)
    else match FirstLeastIndex(ds)
      case Some(k) => NearestAnswer(lookup, lat, lon, k)
      case None => UnknownEntry
  }

  /** The first least position, when there is one. */
  ghost function FirstLeastIndex(ds: seq<Number>): (r: Option<nat>)
    ensures r.Some? ==> IsFirstLeast(ds, r.value)
    ensures r.None? ==> forall k: nat :: !IsFirstLeast(ds, k)
  {
    if exists k: nat :: IsFirstLeast(ds, k) then
      var k: nat :| IsFirstLeast(ds, k);
      Some(k)
    else None
  }

  /** Without an exact hit, the table answers for the first nearest point. */
  lemma TableAnswerAt(lookup: ResolutionLookup, lat: Number, lon: Number, k: nat)
    requires Lookup(lookup.byKey, ToResolutionKey(lat, lon)).None?
    requires IsFirstLeast(Distances(lookup.points, lat, lon), k)
    ensures k < |lookup.points| && TableAnswer(lookup, lat, lon) == NearestAnswer(lookup, lat, lon, k)
  {
    var ds := Distances(lookup.points, lat, lon);
    FirstLeastUnique(ds, FirstLeastIndex(ds).value, k);
  }

  /** Without an exact hit and with no distance below infinity, the table
      answers unknown. */
  lemma TableAnswerNone(lookup: ResolutionLookup, lat: Number, lon: Number)
    requires Lookup(lookup.byKey, ToResolutionKey(lat, lon)).None?
    requires NoneBelowInfinity(Distances(lookup.points, lat, lon))
    ensures TableAnswer(lookup, lat, lon) == UnknownEntry
  {
  }

  /** `fetchCountryFromResolutionData` on a loaded table: an exact key hit
      wins; otherwise the first nearest point answers if it is close
      enough; otherwise the result is the unknown entry. */
  method FetchCountryFromResolutionData(lookup: ResolutionLookup, lat: Number, lon: Number) returns (r: LocationEntry)
    ensures r == TableAnswer(lookup, lat, lon)
    ensures var exact := Lookup(lookup.byKey, ToResolutionKey(lat, lon));
            exact.Some? ==> r == CountryEntry(exact.value.country)
    ensures Lookup(lookup.byKey, ToResolutionKey(lat, lon)).None? && NoneBelowInfinity(Distances(lookup.points, lat, lon)) ==>
              r == UnknownEntry
    ensures forall k: nat | Lookup(lookup.byKey, ToResolutionKey(lat, lon)).None? && IsFirstLeast(Distances(lookup.points, lat, lon), k) ::
              k < |lookup.points| && r == NearestAnswer(lookup, lat, lon, k)
    ensures WellFormedLookup(lookup) ==> r == UnknownEntry || (r.country != UnknownCountry && r == CountryEntry(r.country))
  {
    var exact := Lookup(lookup.byKey, ToResolutionKey(lat, lon));
    if exact.Some? {
      r := CountryEntry(exact.value.country);
      if WellFormedLookup(lookup) {
        ExactHitIsKnown(lookup, ToResolutionKey(lat, lon));
      }
      return;
    }
    var ds := Distances(lookup.points, lat, lon);
    var nearest := FirstLeast(ds);
    if nearest.None? {
      r := UnknownEntry;
      TableAnswerNone(lookup, lat, lon);
    } else {
      r := NearestAnswer(lookup, lat, lon, nearest.value);
      TableAnswerAt(lookup, lat, lon, nearest.value);
      forall k | IsFirstLeast(ds, k) ensures k == nearest.value {
        FirstLeastUnique(ds, k, nearest.value);
      }
    }
  }

  /** An exact hit in a well-formed table is a known point. */
  lemma ExactHitIsKnown(lookup: ResolutionLookup, key: string)
    requires WellFormedLookup(lookup) && Lookup(lookup.byKey, key).Some?
    ensures KnownPoint(Lookup(lookup.byKey, key).value)
  {
    var v := Lookup(lookup.byKey, key).value;
    LookupFound(lookup.byKey, key);
    var i :| 0 <= i < |lookup.byKey| && lookup.byKey[i] == (key, v);
    assert v in lookup.points;
    var j :| 0 <= j < |lookup.points| && lookup.points[j] == v;
  }

  // ---------------------------------------------------------------- live probes

  /** A reverse geocoder (Photon or Nominatim) as the entry it answers for a
      point; the HTTP call itself is not part of this model. */
  type Provider = (Number, Number) -> LocationEntry

  /** The loop exits as soon as an answer has a known country. */
  predicate Answers(e: LocationEntry) {
    e.country != UnknownCountry
  }

  /** The first answer with a known country, or the unknown entry. */
  function FirstAnswer(answers: seq<LocationEntry>): (r: LocationEntry)
    ensures r == UnknownEntry <==> forall i :: 0 <= i < |answers| ==> !Answers(answers[i])
    ensures r != UnknownEntry ==> exists i :: 0 <= i < |answers| && r == answers[i] && Answers(r)
                                               && forall j :: 0 <= j < i ==> !Answers(answers[j])
  {
    if |answers| == 0 then UnknownEntry
    else if Answers(answers[0]) then answers[0]
    else
      var r := FirstAnswer(answers[1..]);
      assert r != UnknownEntry ==> exists i :: 0 <= i < |answers| && r == answers[i] && Answers(r)
                                               && forall j :: 0 <= j < i ==> !Answers(answers[j]) by {
        if r != UnknownEntry {
          var i :| 0 <= i < |answers[1..]| && r == answers[1..][i] && Answers(r)
                   && forall j :: 0 <= j < i ==> !Answers(answers[1..][j]);
          assert forall j :: 0 <= j < i + 1 ==> !Answers(answers[j]) by {
            forall j | 0 <= j < i + 1 ensures !Answers(answers[j]) {
              if j > 0 { assert answers[j] == answers[1..][j - 1]; }
            }
          }
          assert answers[i + 1] == answers[1..][i];
        }
      }
      r
  }

  /** `NEARBY_SEARCH_STEPS`: 0.75 and 1.5 degrees. */
  const NearbySteps: seq<Number> := [Fin(75, 2), Fin(15, 1)]

  /** Four points per step: north, south, east, west. */
  function Ring(lat: Number, lon: Number, steps: seq<Number>): (r: seq<(Number, Number)>)
    ensures |r| == 4 * |steps|
  {
    if |steps| == 0 then []
    else
      var step := steps[0];
      [(Add(lat, step), lon), (Sub(lat, step), lon), (lat, Add(lon, step)), (lat, Sub(lon, step))]
        + Ring(lat, lon, steps[1..])
  }

  /** `getNearbyPoints`. */
  function NearbyPoints(lat: Number, lon: Number): (r: seq<(Number, Number)>)
    ensures |r| == 8
  {
    Ring(lat, lon, NearbySteps)
  }

  /** The eight probes are at ±0.75° and then ±1.5°, latitude first. */
  lemma NearbyPointsOffsets(lat: Number, lon: Number)
    requires lat.Fin? && lon.Fin?
    ensures var r := NearbyPoints(lat, lon);
            && r[0].1 == lon && r[1].1 == lon && r[2].0 == lat && r[3].0 == lat
            && r[4].1 == lon && r[5].1 == lon && r[6].0 == lat && r[7].0 == lat
            && r[0].0.Fin? && r[1].0.Fin? && r[2].1.Fin? && r[3].1.Fin?
            && r[4].0.Fin? && r[5].0.Fin? && r[6].1.Fin? && r[7].1.Fin?
            && Val(r[0].0) == Val(lat) + 0.75 && Val(r[1].0) == Val(lat) - 0.75
            && Val(r[2].1) == Val(lon) + 0.75 && Val(r[3].1) == Val(lon) - 0.75
            && Val(r[4].0) == Val(lat) + 1.5 && Val(r[5].0) == Val(lat) - 1.5
            && Val(r[6].1) == Val(lon) + 1.5 && Val(r[7].1) == Val(lon) - 1.5
  {
    var small, large := Fin(75, 2), Fin(15, 1);
    assert Val(small) == 0.75 && Val(large) == 1.5;
    assert NearbyPoints(lat, lon) == Ring(lat, lon, [small]) + Ring(lat, lon, [large]);
    AddVal(lat, small);
    SubVal(lat, small);
    AddVal(lon, small);
    SubVal(lon, small);
    AddVal(lat, large);
    SubVal(lat, large);
    AddVal(lon, large);
    SubVal(lon, large);
  }

  /** Photon then Nominatim at each nearby point, in ring order. */
  function ProbeAnswers(points: seq<(Number, Number)>, photon: Provider, nominatim: Provider): (r: seq<LocationEntry>)
    ensures |r| == 2 * |points|
    ensures forall i :: 0 <= i < |points| ==>
              r[2 * i] == photon(points[i].0, points[i].1) && r[2 * i + 1] == nominatim(points[i].0, points[i].1)
  {
    if |points| == 0 then []
    else
      var rest := ProbeAnswers(points[1..], photon, nominatim);
      var r := [photon(points[0].0, points[0].1), nominatim(points[0].0, points[0].1)] + rest;
      assert forall i :: 0 <= i < |points| ==>
               r[2 * i] == photon(points[i].0, points[i].1) && r[2 * i + 1] == nominatim(points[i].0, points[i].1) by {
        forall i | 1 <= i < |points|
          ensures r[2 * i] == photon(points[i].0, points[i].1) && r[2 * i + 1] == nominatim(points[i].0, points[i].1)
        {
          PairShift(photon(points[0].0, points[0].1), nominatim(points[0].0, points[0].1), rest, i - 1);
          assert points[1..][i - 1] == points[i];
        }
      }
      r
  }

  /** Prepending a pair moves every pair one place on. */
  lemma PairShift<T>(a: T, b: T, rest: seq<T>, i: int)
    requires 0 <= i && 2 * i + 1 < |rest|
    ensures ([a, b] + rest)[2 * (i + 1)] == rest[2 * i] && ([a, b] + rest)[2 * (i + 1) + 1] == rest[2 * i + 1]
  {
  }

  /** `findNearbyCountry`. */
  function FindNearbyCountry(lat: Number, lon: Number, photon: Provider, nominatim: Provider): LocationEntry {
    FirstAnswer(ProbeAnswers(NearbyPoints(lat, lon), photon, nominatim))
  }

  /** `ENABLE_LIVE_REVERSE_GEOCODING`: off in the dashboard as shipped. */
  const LiveReverseGeocoding := false

  /** The stages of `fetchLocationLabel` after the table: Photon at the
      point, the nearby ring, then Nominatim at the point. */
  function LiveAnswers(lat: Number, lon: Number, photon: Provider, nominatim: Provider): seq<LocationEntry> {
    [photon(lat, lon), FindNearbyCountry(lat, lon, photon, nominatim), nominatim(lat, lon)]
  }

  /** The label `fetchLocationLabel` settles on, stage by stage: the table
      when it knows the country; otherwise unknown when the live stages are
      off; otherwise the first live stage that knows the country. */
  ghost function LocationLabel(lookup: ResolutionLookup, lat: Number, lon: Number, live: bool,
                               photon: Provider, nominatim: Provider): LocationEntry {
    var fromTable := TableAnswer(lookup, lat, lon);
    if Answers(fromTable) then fromTable
    else if !live then UnknownEntry
    else FirstAnswer(LiveAnswers(lat, lon, photon, nominatim))
  }

  /** `fetchLocationLabel`: the table answers first; the live stages are
      consulted only when `live` is set (`LiveReverseGeocoding`). */
  method FetchLocationLabel(lookup: ResolutionLookup, lat: Number, lon: Number, live: bool,
                            photon: Provider, nominatim: Provider) returns (r: LocationEntry)
    ensures Answers(TableAnswer(lookup, lat, lon)) ==> r == TableAnswer(lookup, lat, lon)
    ensures !Answers(TableAnswer(lookup, lat, lon)) && !live ==> r == UnknownEntry
    ensures !Answers(TableAnswer(lookup, lat, lon)) && live ==> r == FirstAnswer(LiveAnswers(lat, lon, photon, nominatim))
    ensures r == LocationLabel(lookup, lat, lon, live, photon, nominatim)
    ensures !live ==> r == UnknownEntry || Answers(r)
    ensures !live && WellFormedLookup(lookup) ==> r == UnknownEntry || r == CountryEntry(r.country)
    ensures live ==> r == UnknownEntry || Answers(r)
  {
    var fromTable := FetchCountryFromResolutionData(lookup, lat, lon);
    if Answers(fromTable) {
      return fromTable;
    }
    if !live {
      return UnknownEntry;
    }
    r := FirstAnswer(LiveAnswers(lat, lon, photon, nominatim));
  }

  // ---------------------------------------------------------------- dictionary

  /** The coordinate-key -> location dictionary, in key order. */
  type Dictionary = Table<string, LocationEntry>

  /** What `localStorage.getItem` followed by `JSON.parse` yields: nothing
      stored (or an empty string), storage or text that throws, or a value. */
  datatype Stored = Missing | Unreadable | Parsed(value: Value)

  /** Every key has the current dictionary-key format. */
  predicate AllDictionaryKeys(d: Dictionary) {
    forall k :: k in KeysOf(d) ==> IsDictionaryKey(k)
  }

  /** The sanitising loop of `loadLocationDictionary` over `keys`, in order:
      keys of another format are skipped, the others are normalised. */
  function Sanitize(parsed: Value, keys: seq<string>, t: Tables): Dictionary
    decreases |keys|
  {
    if |keys| == 0 then []
    else
      var n := |keys| - 1;
      var d := Sanitize(parsed, keys[..n], t);
      if IsDictionaryKey(keys[n]) then Upsert(d, keys[n], _ => NormalizeLocationEntry(Get(parsed, keys[n]), t)) else d
  }

  /** `loadLocationDictionary`: missing, unreadable, falsy and non-object
      storage all give the empty dictionary. An array parses to an object
      whose index keys never have the dictionary format, so it also gives
      the empty dictionary. */
  function LoadLocationDictionary(stored: Stored, t: Tables): (d: Dictionary)
    ensures !stored.Parsed? || !stored.value.Obj? ==> d == []
  {
    match stored
    case Parsed(v) => if v.Obj? then Sanitize(v, Keys(v), t) else []
    case _ => []
  }

  /** The sanitised dictionary holds exactly the keys of the current format,
      once each, each with its normalised entry. */
  lemma {:induction false} SanitizeFacts(parsed: Value, keys: seq<string>, t: Tables)
    ensures UniqueKeys(Sanitize(parsed, keys, t)) && AllDictionaryKeys(Sanitize(parsed, keys, t))
    ensures forall k :: k in KeysOf(Sanitize(parsed, keys, t)) <==> k in keys && IsDictionaryKey(k)
    ensures forall k :: k in KeysOf(Sanitize(parsed, keys, t)) ==>
              Lookup(Sanitize(parsed, keys, t), k) == Some(NormalizeLocationEntry(Get(parsed, k), t))
    decreases |keys|
  {
    if |keys| > 0 {
      var n := |keys| - 1;
      var d := Sanitize(parsed, keys[..n], t);
      SanitizeFacts(parsed, keys[..n], t);
      assert keys == keys[..n] + [keys[n]];
      if IsDictionaryKey(keys[n]) {
        var f := (_: Option<LocationEntry>) => NormalizeLocationEntry(Get(parsed, keys[n]), t);
        UpsertKeepsUnique(d, keys[n], f);
        forall k | k in KeysOf(Upsert(d, keys[n], f))
          ensures Lookup(Upsert(d, keys[n], f), k) == Some(NormalizeLocationEntry(Get(parsed, k), t))
        {
          if k != keys[n] {
            UpsertOthers(d, keys[n], f, k);
          }
        }
      }
    }
  }

  /** Loaded keys all have the current format and occur once; a key is kept
      exactly when the stored object has it and it has that format. */
  lemma LoadLocationDictionaryFacts(stored: Stored, t: Tables)
    ensures var d := LoadLocationDictionary(stored, t);
            UniqueKeys(d) && AllDictionaryKeys(d)
    ensures stored.Parsed? && stored.value.Obj? ==>
              forall k :: k in KeysOf(LoadLocationDictionary(stored, t)) <==> k in Keys(stored.value) && IsDictionaryKey(k)
    ensures stored.Parsed? && stored.value.Obj? ==>
              forall k :: k in KeysOf(LoadLocationDictionary(stored, t)) ==>
                Lookup(LoadLocationDictionary(stored, t), k) == Some(NormalizeLocationEntry(Get(stored.value, k), t))
  {
    if stored.Parsed? && stored.value.Obj? {
      SanitizeFacts(stored.value, Keys(stored.value), t);
    }
  }

  /** What `saveLocationDictionary` writes, as the value it parses back to. */
  function DictionaryValue(d: Dictionary): (v: Value)
    ensures v.Obj? && Keys(v) == KeysOf(d)
  {
    Obj(seq(|d|, i requires 0 <= i < |d| => (d[i].0, EntryValue(d[i].1))))
  }

  /** A property of the saved object is the stored form of the entry. */
  lemma {:induction false} DictionaryFieldOf(d: Dictionary, k: string)
    requires k in KeysOf(d)
    ensures Get(DictionaryValue(d), k) == EntryValue(Lookup(d, k).value)
    decreases |d|
  {
    var fields := DictionaryValue(d).fields;
    assert fields[0] == (d[0].0, EntryValue(d[0].1));
    if d[0].0 != k {
      assert KeysOf(d) == [d[0].0] + KeysOf(d[1..]);
      DictionaryFieldOf(d[1..], k);
      DictionaryValueTail(d);
      assert Get(DictionaryValue(d), k) == FieldOf(fields[1..], k);
    }
  }

  lemma DictionaryValueTail(d: Dictionary)
    requires |d| > 0
    ensures DictionaryValue(d[1..]).fields == DictionaryValue(d).fields[1..]
  {
    var a, b := DictionaryValue(d[1..]).fields, DictionaryValue(d).fields[1..];
    assert |a| == |b|;
    forall i | 0 <= i < |a| ensures a[i] == b[i] {
      assert d[1..][i] == d[i + 1];
    }
  }

  /** Saving a dictionary of current-format keys and loading it again gives
      back the same keys in the same order, with the same labels when the
      labels are trimmed and non-empty. */
  lemma SaveLoadRoundTrip(d: Dictionary, t: Tables)
    requires UniqueKeys(d) && AllDictionaryKeys(d)
    ensures KeysOf(LoadLocationDictionary(Parsed(DictionaryValue(d)), t)) == KeysOf(d)
    ensures forall k :: k in KeysOf(d) && Lookup(d, k).value.labelText != "" && Trimmed(Lookup(d, k).value.labelText) ==>
              Lookup(LoadLocationDictionary(Parsed(DictionaryValue(d)), t), k).Some? &&
              Lookup(LoadLocationDictionary(Parsed(DictionaryValue(d)), t), k).value.labelText == Lookup(d, k).value.labelText
  {
    SaveLoadKeys(d, t);
    SaveLoadLabels(d, t);
  }

  lemma SaveLoadKeys(d: Dictionary, t: Tables)
    requires UniqueKeys(d) && AllDictionaryKeys(d)
    ensures KeysOf(LoadLocationDictionary(Parsed(DictionaryValue(d)), t)) == KeysOf(d)
  {
    var keys := KeysOf(d);
    assert forall i :: 0 <= i < |keys| ==> IsDictionaryKey(keys[i]);
    SanitizeKeysInOrder(DictionaryValue(d), keys, t);
  }

  lemma SaveLoadLabels(d: Dictionary, t: Tables)
    requires AllDictionaryKeys(d)
    ensures forall k :: k in KeysOf(d) && Lookup(d, k).value.labelText != "" && Trimmed(Lookup(d, k).value.labelText) ==>
              Lookup(LoadLocationDictionary(Parsed(DictionaryValue(d)), t), k).Some? &&
              Lookup(LoadLocationDictionary(Parsed(DictionaryValue(d)), t), k).value.labelText == Lookup(d, k).value.labelText
  {
    forall k | k in KeysOf(d) && Lookup(d, k).value.labelText != "" && Trimmed(Lookup(d, k).value.labelText)
      ensures Lookup(LoadLocationDictionary(Parsed(DictionaryValue(d)), t), k).Some? &&
              Lookup(LoadLocationDictionary(Parsed(DictionaryValue(d)), t), k).value.labelText == Lookup(d, k).value.labelText
    {
      LoadedLabel(d, t, k);
    }
  }

  lemma LoadedLabel(d: Dictionary, t: Tables, k: string)
    requires AllDictionaryKeys(d) && k in KeysOf(d)
    requires Lookup(d, k).value.labelText != "" && Trimmed(Lookup(d, k).value.labelText)
    ensures var loaded := LoadLocationDictionary(Parsed(DictionaryValue(d)), t);
            Lookup(loaded, k).Some? && Lookup(loaded, k).value.labelText == Lookup(d, k).value.labelText
  {
    LoadedEntry(d, t, k);
    StoredEntryRoundTrip(Lookup(d, k).value, t);
  }

  /** Each saved entry is read back through `normalizeLocationEntry`. */
  lemma LoadedEntry(d: Dictionary, t: Tables, k: string)
    requires AllDictionaryKeys(d) && k in KeysOf(d)
    ensures Lookup(LoadLocationDictionary(Parsed(DictionaryValue(d)), t), k)
            == Some(NormalizeLocationEntry(EntryValue(Lookup(d, k).value), t))
  {
    var v := DictionaryValue(d);
    SanitizeFacts(v, Keys(v), t);
    assert k in Keys(v) && IsDictionaryKey(k);
    DictionaryFieldOf(d, k);
  }

  /** Distinct keys that all have the dictionary format come out in order. */
  lemma {:induction false} SanitizeKeysInOrder(parsed: Value, keys: seq<string>, t: Tables)
    requires forall i, j :: 0 <= i < j < |keys| ==> keys[i] != keys[j]
    requires forall i :: 0 <= i < |keys| ==> IsDictionaryKey(keys[i])
    ensures KeysOf(Sanitize(parsed, keys, t)) == keys
    decreases |keys|
  {
    if |keys| > 0 {
      var n := |keys| - 1;
      SanitizeKeysInOrder(parsed, keys[..n], t);
      assert keys[n] !in keys[..n];
    }
  }

  // ---------------------------------------------------------------- build loop

  /** An entry the build loop keeps: still not unknown when normalised again. */
  predicate IsKnownEntry(e: LocationEntry, t: Tables) {
    !IsUnknownEntry(EntryValue(e), t)
  }

  /** The loop fetches a label for `key`: its entry is missing or unknown. */
  predicate NeedsFetch(d: Dictionary, key: string, t: Tables) {
    !(Lookup(d, key).Some? && IsKnownEntry(Lookup(d, key).value, t))
  }

  /** What the loop stores for a coordinate it fetches: the label
      `fetchLocationLabel` settles on, normalised. */
  ghost function Resolved(c: UniqueCoordinate, lookup: ResolutionLookup, t: Tables, live: bool,
                          photon: Provider, nominatim: Provider): LocationEntry {
    NormalizeLocationEntry(EntryValue(LocationLabel(lookup, c.lat, c.lon, live, photon, nominatim)), t)
  }

  /** `getOrBuildLocationDictionary`: start from the stored dictionary and
      resolve every unique coordinate whose entry is missing or unknown.
      Known entries are left alone, each resolved coordinate holds its
      normalised fetched label, every coordinate of the photos ends up with
      an entry, and no other keys appear. */
  method GetOrBuildLocationDictionary(photos: Photos, stored: Stored, lookup: ResolutionLookup, t: Tables,
                                      live: bool, photon: Provider, nominatim: Provider) returns (d: Dictionary)
    ensures UniqueKeys(d) && AllDictionaryKeys(d)
    ensures var start, coords := LoadLocationDictionary(stored, t), UniqueCoordinates(photos);
            forall j :: 0 <= j < |coords| && NeedsFetch(start, coords[j].key, t) ==>
              Lookup(d, coords[j].key) == Some(Resolved(coords[j], lookup, t, live, photon, nominatim))
    ensures var start := LoadLocationDictionary(stored, t);
            forall k :: Lookup(start, k).Some? && IsKnownEntry(Lookup(start, k).value, t) ==> Lookup(d, k) == Lookup(start, k)
    ensures forall i :: 0 <= i < |photos| && PhotoCoordinates(photos[i].1).Some? ==>
              var c := PhotoCoordinates(photos[i].1).value;
              CoordinateKey(c.lat, c.lon) in KeysOf(d)
    ensures forall k :: k in KeysOf(d) <==>
              k in KeysOf(LoadLocationDictionary(stored, t)) || exists j :: 0 <= j < |UniqueCoordinates(photos)| && UniqueCoordinates(photos)[j].key == k
  {
    var start := LoadLocationDictionary(stored, t);
    LoadLocationDictionaryFacts(stored, t);
    var coords := UniqueCoordinates(photos);
    UniqueCoordinatesAreKeys(photos);
    UniqueCoordinatesDistinct(photos);
    d := start;
    var i := 0;
    while i < |coords|
      invariant Built(d, start, coords, i, t)
      invariant Fetched(d, start, coords, i, lookup, t, live, photon, nominatim)
    {
      var c := coords[i];
      var current := Lookup(d, c.key);
      if !(current.Some? && IsKnownEntry(current.value, t)) {
        var fetched := FetchLocationLabel(lookup, c.lat, c.lon, live, photon, nominatim);
        var e := NormalizeLocationEntry(EntryValue(fetched), t);
        var f := (_: Option<LocationEntry>) => e;
        BuiltUpsert(d, start, coords, i, t, f);
        FetchedUpsert(d, start, coords, i, lookup, t, live, photon, nominatim, f);
        d := Upsert(d, c.key, f);
      } else {
        BuiltSkip(d, start, coords, i, t);
        FetchedSkip(d, start, coords, i, lookup, t, live, photon, nominatim);
      }
      i := i + 1;
    }
    BuiltCovers(d, start, photos, t);
  }

  /** The invariant of the building loop after the first `i` coordinates. */
  ghost predicate Built(d: Dictionary, start: Dictionary, coords: seq<UniqueCoordinate>, i: int, t: Tables) {
    BuiltKeys(d, start, coords, i) && KeepsKnown(d, start, t)
  }

  /** The keys after the first `i` coordinates: the loaded ones and those
      coordinates' keys, all distinct and all of the dictionary key format. */
  ghost predicate BuiltKeys(d: Dictionary, start: Dictionary, coords: seq<UniqueCoordinate>, i: int) {
    && 0 <= i <= |coords|
    && UniqueKeys(d) && AllDictionaryKeys(d)
    && (forall j :: 0 <= j < i ==> coords[j].key in KeysOf(d))
    && (forall k :: k in KeysOf(d) <==> k in KeysOf(start) || exists j :: 0 <= j < i && coords[j].key == k)
  }

  /** Every known entry of `start` is still in `d`. */
  ghost predicate KeepsKnown(d: Dictionary, start: Dictionary, t: Tables) {
    forall k :: Lookup(start, k).Some? && IsKnownEntry(Lookup(start, k).value, t) ==> Lookup(d, k) == Lookup(start, k)
  }

  /** After the first `i` coordinates: those the loop fetched hold their
      resolved label, and the later ones still hold their starting entry. */
  ghost predicate Fetched(d: Dictionary, start: Dictionary, coords: seq<UniqueCoordinate>, i: int,
                          lookup: ResolutionLookup, t: Tables, live: bool, photon: Provider, nominatim: Provider) {
    && 0 <= i <= |coords|
    && DistinctBy(coords, (u: UniqueCoordinate) => u.key)
    && (forall j :: 0 <= j < i && NeedsFetch(start, coords[j].key, t) ==>
          Lookup(d, coords[j].key) == Some(Resolved(coords[j], lookup, t, live, photon, nominatim)))
    && (forall j :: i <= j < |coords| ==> Lookup(d, coords[j].key) == Lookup(start, coords[j].key))
  }

  lemma FetchedSkip(d: Dictionary, start: Dictionary, coords: seq<UniqueCoordinate>, i: int,
                    lookup: ResolutionLookup, t: Tables, live: bool, photon: Provider, nominatim: Provider)
    requires Fetched(d, start, coords, i, lookup, t, live, photon, nominatim) && i < |coords|
    requires !NeedsFetch(d, coords[i].key, t)
    ensures Fetched(d, start, coords, i + 1, lookup, t, live, photon, nominatim)
  {
  }

  lemma FetchedUpsert(d: Dictionary, start: Dictionary, coords: seq<UniqueCoordinate>, i: int,
                      lookup: ResolutionLookup, t: Tables, live: bool, photon: Provider, nominatim: Provider,
                      f: Option<LocationEntry> -> LocationEntry)
    requires Fetched(d, start, coords, i, lookup, t, live, photon, nominatim) && i < |coords|
    requires forall x :: f(x) == Resolved(coords[i], lookup, t, live, photon, nominatim)
    ensures Fetched(Upsert(d, coords[i].key, f), start, coords, i + 1, lookup, t, live, photon, nominatim)
  {
    var key := coords[i].key;
    var r := Upsert(d, key, f);
    forall j | 0 <= j < |coords| && j != i ensures Lookup(r, coords[j].key) == Lookup(d, coords[j].key) {
      assert coords[j].key != key by {
        var u := (u: UniqueCoordinate) => u.key;
        if j < i { assert u(coords[j]) != u(coords[i]); } else { assert u(coords[i]) != u(coords[j]); }
      }
      UpsertOthers(d, key, f, coords[j].key);
    }
  }

  /** A coordinate whose entry is already known is skipped. */
  lemma BuiltSkip(d: Dictionary, start: Dictionary, coords: seq<UniqueCoordinate>, i: int, t: Tables)
    requires Built(d, start, coords, i, t) && i < |coords|
    requires Lookup(d, coords[i].key).Some?
    ensures Built(d, start, coords, i + 1, t)
  {
    assert BuiltKeys(d, start, coords, i + 1) by {
      assert coords[i].key in KeysOf(d);
    }
  }

  /** Storing a fresh entry under a coordinate whose entry is missing or unknown. */
  lemma BuiltUpsert(d: Dictionary, start: Dictionary, coords: seq<UniqueCoordinate>, i: int, t: Tables,
                    f: Option<LocationEntry> -> LocationEntry)
    requires Built(d, start, coords, i, t) && i < |coords|
    requires IsDictionaryKey(coords[i].key)
    requires !(Lookup(d, coords[i].key).Some? && IsKnownEntry(Lookup(d, coords[i].key).value, t))
    ensures Built(Upsert(d, coords[i].key, f), start, coords, i + 1, t)
  {
    BuiltKeysUpsert(d, start, coords, i, f);
    KeepsKnownUpsert(d, start, t, coords[i].key, f);
  }

  lemma BuiltKeysUpsert(d: Dictionary, start: Dictionary, coords: seq<UniqueCoordinate>, i: int,
                        f: Option<LocationEntry> -> LocationEntry)
    requires BuiltKeys(d, start, coords, i) && i < |coords|
    requires IsDictionaryKey(coords[i].key)
    ensures BuiltKeys(Upsert(d, coords[i].key, f), start, coords, i + 1)
  {
    var key := coords[i].key;
    var r := Upsert(d, key, f);
    UpsertKeepsUnique(d, key, f);
    assert forall k :: k in KeysOf(r) <==> k in KeysOf(d) || k == key;
    assert forall j :: 0 <= j < i + 1 ==> coords[j].key in KeysOf(r);
    forall k | k in KeysOf(r) && k !in KeysOf(start) ensures exists j :: 0 <= j < i + 1 && coords[j].key == k {
      if k == key {
        assert coords[i].key == k;
      }
    }
  }

  lemma KeepsKnownUpsert(d: Dictionary, start: Dictionary, t: Tables, key: string, f: Option<LocationEntry> -> LocationEntry)
    requires KeepsKnown(d, start, t)
    requires !(Lookup(d, key).Some? && IsKnownEntry(Lookup(d, key).value, t))
    ensures KeepsKnown(Upsert(d, key, f), start, t)
  {
    forall k | Lookup(start, k).Some? && IsKnownEntry(Lookup(start, k).value, t)
      ensures Lookup(Upsert(d, key, f), k) == Lookup(start, k)
    {
      UpsertOthers(d, key, f, k);
    }
  }

  /** After the loop every photo's coordinate key has an entry. */
  lemma BuiltCovers(d: Dictionary, start: Dictionary, photos: Photos, t: Tables)
    requires Built(d, start, UniqueCoordinates(photos), |UniqueCoordinates(photos)|, t)
    ensures forall i :: 0 <= i < |photos| && PhotoCoordinates(photos[i].1).Some? ==>
              var c := PhotoCoordinates(photos[i].1).value;
              CoordinateKey(c.lat, c.lon) in KeysOf(d)
  {
    UniqueCoordinatesCover(photos);
  }

  // ---------------------------------------------------------------- country info

  /** The dictionary's entries as `normalizeLocationEntry` reads them, in key order. */
  function NormalizedEntries(d: Dictionary, t: Tables): (es: seq<LocationEntry>)
    ensures |es| == |d|
    ensures forall i :: 0 <= i < |d| ==> es[i] == NormalizeLocationEntry(EntryValue(d[i].1), t)
  {
    seq(|d|, i requires 0 <= i < |d| => NormalizeLocationEntry(EntryValue(d[i].1), t))
  }

  /** An entry that gives `country` a code. */
  predicate GivesCode(e: LocationEntry, country: string) {
    e.country == country && e.countryCode != ""
  }

  /** The code of the first entry that gives `country` one (the memoised
      lookup keeps the first code seen per country). */
  function FirstCodeFor(es: seq<LocationEntry>, country: string): (r: Option<string>)
    ensures r.None? <==> forall i :: 0 <= i < |es| ==> !GivesCode(es[i], country)
    ensures forall i :: 0 <= i < |es| && GivesCode(es[i], country) && (forall j :: 0 <= j < i ==> !GivesCode(es[j], country)) ==>
              r == Some(es[i].countryCode)
  {
    if |es| == 0 then None
    else if GivesCode(es[0], country) then Some(es[0].countryCode)
    else
      var r := FirstCodeFor(es[1..], country);
      assert forall i :: 1 <= i < |es| ==> es[i] == es[1..][i - 1];
      r
  }

  /** `getCountryCodeFromDictionary`: the first dictionary entry for the
      normalised country that has a code wins; otherwise the code looked up
      from the name. */
  function GetCountryCodeFromDictionary(d: Dictionary, countryName: Value, t: Tables): (r: string)
    ensures var target, es := NormalizeCountryName(countryName, t), NormalizedEntries(d, t);
            forall i :: 0 <= i < |es| && GivesCode(es[i], target) && (forall j :: 0 <= j < i ==> !GivesCode(es[j], target)) ==>
              r == es[i].countryCode && r != ""
    ensures var target, es := NormalizeCountryName(countryName, t), NormalizedEntries(d, t);
            (forall i :: 0 <= i < |es| ==> !GivesCode(es[i], target)) ==> r == CountryCodeFromName(Str(target), t)
  {
    var target := NormalizeCountryName(countryName, t);
    CodeOrElse(NormalizedEntries(d, t), target, CountryCodeFromName(Str(target), t))
  }

  /** The code of the first entry that gives `country` one, or `fallback`. */
  function CodeOrElse(es: seq<LocationEntry>, country: string, fallback: string): (r: string)
    ensures forall i :: 0 <= i < |es| && GivesCode(es[i], country) && (forall j :: 0 <= j < i ==> !GivesCode(es[j], country)) ==>
              r == es[i].countryCode && r != ""
    ensures (forall i :: 0 <= i < |es| ==> !GivesCode(es[i], country)) ==> r == fallback
  {
    match FirstCodeFor(es, country)
    case Some(code) => code
    case None => fallback
  }

  /** What `getCountryInfoForPhoto` returns. */
  datatype CountryInfo = CountryInfo(country: string, countryCode: string, countryKey: string, labelText: string)

  /** The dictionary entry for a photo's coordinates, `undefined` when the
      photo has none or the dictionary lacks its key. */
  function DictionaryEntry(photo: Value, d: Dictionary): Value {
    match PhotoCoordinates(photo)
    case None => Undefined
    case Some(c) =>
      match Lookup(d, CoordinateKey(c.lat, c.lon))
      case None => Undefined
      case Some(e) => EntryValue(e)
  }

  /** `getCountryInfoForPhoto`. */
  function CountryInfoForPhoto(photo: Value, d: Dictionary, t: Tables): (r: CountryInfo)
    ensures r.country != "" && r.labelText != ""
    ensures r.countryKey == CountryGroupKey(Str(r.country), Str(r.countryCode), t)
    ensures PhotoCoordinates(photo).None? ==>
              r == CountryInfo(UnknownCountry, "", CountryGroupKey(Str(UnknownCountry), Str(""), t), UnknownLocation)
    ensures PhotoCoordinates(photo).Some? ==>
              var entry := NormalizeLocationEntry(DictionaryEntry(photo, d), t);
              && r.country == entry.country && r.labelText == entry.labelText
              && (entry.countryCode != "" ==> r.countryCode == entry.countryCode)
              && (entry.countryCode == "" ==> r.countryCode == GetCountryCodeFromDictionary(d, Str(entry.country), t))
  {
    UnknownLabelsArePlain();
    if PhotoCoordinates(photo).None? then
      CountryInfo(UnknownCountry, "", CountryGroupKey(Str(UnknownCountry), Str(""), t), UnknownLocation)
    else
      var entry := NormalizeLocationEntry(DictionaryEntry(photo, d), t);
      var code := if entry.countryCode != "" then entry.countryCode
                  else GetCountryCodeFromDictionary(d, Str(entry.country), t);
      assert entry.labelText != "" by {
        LabelNeverEmpty(DictionaryEntry(photo, d), t);
      }
      CountryInfo(entry.country, code, CountryGroupKey(Str(entry.country), Str(code), t), entry.labelText)
  }

  /** Entries stored by the dictionary are objects, so their label is never empty. */
  lemma LabelNeverEmpty(entry: Value, t: Tables)
    requires entry.Undefined? || entry.Obj?
    ensures NormalizeLocationEntry(entry, t).labelText != ""
  {
    UnknownLabelsArePlain();
  }

  /** A photo whose key is missing from the dictionary has an unknown country
      and the unknown label. */
  lemma MissingKeyIsUnknown(photo: Value, d: Dictionary, t: Tables)
    requires PhotoCoordinates(photo).Some?
    requires CoordinateKey(PhotoCoordinates(photo).value.lat, PhotoCoordinates(photo).value.lon) !in KeysOf(d)
    ensures CountryInfoForPhoto(photo, d, t).country == UnknownCountry
    ensures CountryInfoForPhoto(photo, d, t).labelText == UnknownLocation
  {
    assert DictionaryEntry(photo, d) == Undefined;
  }

  /** A photo shows the label stored for its coordinates, when that label is
      trimmed and non-empty. */
  lemma StoredLabelShown(photo: Value, d: Dictionary, t: Tables)
    requires PhotoCoordinates(photo).Some?
    requires var c := PhotoCoordinates(photo).value;
             var e := Lookup(d, CoordinateKey(c.lat, c.lon));
             e.Some? && e.value.labelText != "" && Trimmed(e.value.labelText)
    ensures var c := PhotoCoordinates(photo).value;
            CountryInfoForPhoto(photo, d, t).labelText == Lookup(d, CoordinateKey(c.lat, c.lon)).value.labelText
  {
    var c := PhotoCoordinates(photo).value;
    StoredEntryRoundTrip(Lookup(d, CoordinateKey(c.lat, c.lon)).value, t);
  }

  // ---------------------------------------------------------------- country counts

  /** A row of the country dropdown. */
  datatype CountryCount = CountryCount(key: string, country: string, countryCode: string, count: nat)

  function CountOf(c: CountryCount): nat {
    c.count
  }

  function CountryOf(c: CountryCount): string {
    c.country
  }

  function GroupKeyOf(c: CountryCount): string {
    c.key
  }

  /** One photo added to its group: a new group starts at 1; an existing
      one counts up and takes the photo's code if it had none. (The source's
      `||` fallbacks for the new row never apply: a photo's country is never
      empty, and an empty code stays empty.) */
  function Bump(info: CountryInfo): Option<CountryCount> -> CountryCount {
    (current: Option<CountryCount>) =>
      match current
      case None => CountryCount(info.countryKey, info.country, info.countryCode, 1)
      case Some(c) =>
        CountryCount(c.key, c.country, if c.countryCode == "" && info.countryCode != "" then info.countryCode else c.countryCode,
                     c.count + 1)
  }

  /** The information of every photo, in key order. */
  function InfosOf(photos: Photos, d: Dictionary, t: Tables): (r: seq<CountryInfo>)
    ensures |r| == |photos|
    ensures forall i :: 0 <= i < |photos| ==> r[i] == CountryInfoForPhoto(photos[i].1, d, t)
  {
    seq(|photos|, i requires 0 <= i < |photos| => CountryInfoForPhoto(photos[i].1, d, t))
  }

  /** The photo's country is known, so it is counted. */
  predicate KnownInfo(info: CountryInfo) {
    info.country != UnknownCountry
  }

  /** The grouping loop of `buildCountryCounts`, over the photos' information in key order. */
  function GroupInfos(infos: seq<CountryInfo>): Table<string, CountryCount>
    decreases |infos|
  {
    if |infos| == 0 then []
    else
      var n := |infos| - 1;
      var groups := GroupInfos(infos[..n]);
      var info := infos[n];
      if !KnownInfo(info) then groups else Upsert(groups, info.countryKey, Bump(info))
  }

  /** The groups, most photos first, ties by country name. */
  function RankGroups(infos: seq<CountryInfo>): seq<CountryCount> {
    SortBy(ValuesOf(GroupInfos(infos)), ByIntRank(CountOf, CountryOf))
  }

  /** `buildCountryCounts`. */
  function BuildCountryCounts(photos: Photos, d: Dictionary, t: Tables): seq<CountryCount> {
    RankGroups(InfosOf(photos, d, t))
  }

  /** A group is a known country with at least one photo. */
  predicate GoodGroup(c: CountryCount) {
    c.country != UnknownCountry && c.count >= 1
  }

  /** The groups are distinct, keyed by their own key, known and non-empty,
      and hold one count per known-country photo. */
  lemma {:induction false} GroupInfosFacts(infos: seq<CountryInfo>)
    ensures var g := GroupInfos(infos);
            && UniqueKeys(g) && KeyedBy(g, GroupKeyOf) && AllValues(g, GoodGroup)
            && NatTotal(g, CountOf) == Count(infos, KnownInfo)
    decreases |infos|
  {
    if |infos| > 0 {
      var n := |infos| - 1;
      var g := GroupInfos(infos[..n]);
      GroupInfosFacts(infos[..n]);
      CountSnoc(infos[..n], infos[n], KnownInfo);
      assert infos == infos[..n] + [infos[n]];
      var info := infos[n];
      if KnownInfo(info) {
        var f := Bump(info);
        UpsertKeepsUnique(g, info.countryKey, f);
        UpsertKeepsKeyed(g, info.countryKey, f, GroupKeyOf);
        UpsertKeepsValues(g, info.countryKey, f, GoodGroup);
        NatTotalUpsert(g, info.countryKey, f, CountOf, 1);
      }
    }
  }

  /** Every known-country photo's group is among the groups, and every group
      is some known-country photo's. */
  lemma GroupInfosCover(infos: seq<CountryInfo>)
    ensures forall i :: 0 <= i < |infos| && KnownInfo(infos[i]) ==> infos[i].countryKey in KeysOf(GroupInfos(infos))
    ensures forall k :: k in KeysOf(GroupInfos(infos)) ==>
              exists i :: 0 <= i < |infos| && KnownInfo(infos[i]) && infos[i].countryKey == k
  {
    GroupInfosHaveKeys(infos);
    GroupKeysCome(infos);
  }

  lemma {:induction false} GroupInfosHaveKeys(infos: seq<CountryInfo>)
    ensures forall i :: 0 <= i < |infos| && KnownInfo(infos[i]) ==> infos[i].countryKey in KeysOf(GroupInfos(infos))
    decreases |infos|
  {
    if |infos| > 0 {
      var n := |infos| - 1;
      var prefix := infos[..n];
      GroupInfosHaveKeys(prefix);
      GroupInfosGrows(infos);
      forall i | 0 <= i < |infos| && KnownInfo(infos[i]) ensures infos[i].countryKey in KeysOf(GroupInfos(infos)) {
        if i < n {
          assert infos[i] == prefix[i];
        }
      }
    }
  }

  lemma {:induction false} GroupKeysCome(infos: seq<CountryInfo>)
    ensures forall k :: k in KeysOf(GroupInfos(infos)) ==>
              exists i :: 0 <= i < |infos| && KnownInfo(infos[i]) && infos[i].countryKey == k
    decreases |infos|
  {
    if |infos| > 0 {
      var n := |infos| - 1;
      var prefix := infos[..n];
      GroupKeysCome(prefix);
      GroupInfosGrows(infos);
      forall k | k in KeysOf(GroupInfos(infos))
        ensures exists i :: 0 <= i < |infos| && KnownInfo(infos[i]) && infos[i].countryKey == k
      {
        if k in KeysOf(GroupInfos(prefix)) {
          var i :| 0 <= i < |prefix| && KnownInfo(prefix[i]) && prefix[i].countryKey == k;
          assert infos[i] == prefix[i];
        } else {
          assert infos[n].countryKey == k;
        }
      }
    }
  }

  /** One more record keeps every group key and adds its own when its
      country is known. */
  lemma GroupInfosGrows(infos: seq<CountryInfo>)
    requires |infos| > 0
    ensures var n := |infos| - 1;
            forall k :: k in KeysOf(GroupInfos(infos)) <==>
              k in KeysOf(GroupInfos(infos[..n])) || (KnownInfo(infos[n]) && k == infos[n].countryKey)
  {
  }

  /** The country counts: known countries only, each group once, counts
      adding up to the number of known-country photos, sorted by count
      descending and then by name; each row counts the known-country photos
      of its group, shows the group's first country and carries the group's
      first country code. */
  lemma RankGroupsFacts(infos: seq<CountryInfo>)
    ensures var r := RankGroups(infos);
            && (forall i :: 0 <= i < |r| ==> r[i].country != UnknownCountry && r[i].count >= 1)
            && NatSum(r, CountOf) == Count(infos, KnownInfo)
            && Sorted(r, ByIntRank(CountOf, CountryOf))
            && DistinctBy(r, GroupKeyOf)
            && (forall j :: 0 <= j < |r| ==>
                  && r[j].count == Count(infos, InGroup(r[j].key))
                  && FirstCountryIs(infos, r[j].key, r[j].country)
                  && FirstCodeIs(infos, r[j].key, r[j].countryCode))
  {
    RankedRows(infos);
    var g := GroupInfos(infos);
    var vs := ValuesOf(g);
    var le := ByIntRank(CountOf, CountryOf);
    var r := SortBy(vs, le);
    GroupInfosFacts(infos);
    forall i | 0 <= i < |r| ensures r[i].country != UnknownCountry && r[i].count >= 1 {
      assert r[i] in multiset(vs);
    }
    NatTotalOfValues(g, CountOf);
    NatSumPermutation(r, vs, CountOf);
    IntRankPreorder(CountOf, CountryOf);
    SortBySorted(vs, le);
    KeyedValuesDistinct(g, GroupKeyOf);
    SortByDistinct(vs, le, GroupKeyOf);
  }

  /** Every offered country key belongs to some known-country photo. */
  lemma RankedKeysCome(infos: seq<CountryInfo>)
    ensures var r := RankGroups(infos);
            forall j :: 0 <= j < |r| ==> FromKnownPhoto(infos, r[j].key)
  {
    var r := RankGroups(infos);
    GroupInfosFacts(infos);
    forall j | 0 <= j < |r| ensures FromKnownPhoto(infos, r[j].key) {
      RankedKeyIsGroupKey(infos, j);
      var i := GroupKeyComes(infos, r[j].key);
    }
  }

  /** Some photo of a known country has group key `k`. */
  predicate FromKnownPhoto(infos: seq<CountryInfo>, k: string) {
    exists i :: 0 <= i < |infos| && KnownInfo(infos[i]) && infos[i].countryKey == k
  }

  /** A record of a known country that a group key comes from. */
  lemma GroupKeyComes(infos: seq<CountryInfo>, k: string) returns (i: int)
    requires k in KeysOf(GroupInfos(infos))
    ensures 0 <= i < |infos| && KnownInfo(infos[i]) && infos[i].countryKey == k
  {
    GroupKeysCome(infos);
    i :| 0 <= i < |infos| && KnownInfo(infos[i]) && infos[i].countryKey == k;
  }

  /** Every known-country photo's key is offered. */
  lemma KnownKeysRanked(infos: seq<CountryInfo>)
    ensures var r := RankGroups(infos);
            forall i :: 0 <= i < |infos| && KnownInfo(infos[i]) ==> exists j :: 0 <= j < |r| && r[j].key == infos[i].countryKey
  {
    var r := RankGroups(infos);
    GroupInfosCover(infos);
    GroupInfosFacts(infos);
    forall i | 0 <= i < |infos| && KnownInfo(infos[i]) ensures exists j :: 0 <= j < |r| && r[j].key == infos[i].countryKey {
      GroupKeyIsRanked(infos, infos[i].countryKey);
    }
  }

  lemma RankedKeyIsGroupKey(infos: seq<CountryInfo>, j: int)
    requires KeyedBy(GroupInfos(infos), GroupKeyOf)
    requires 0 <= j < |RankGroups(infos)|
    ensures RankGroups(infos)[j].key in KeysOf(GroupInfos(infos))
  {
    var g := GroupInfos(infos);
    var vs := ValuesOf(g);
    var r := RankGroups(infos);
    assert r[j] in multiset(vs);
    var i :| 0 <= i < |vs| && vs[i] == r[j];
    assert GroupKeyOf(g[i].1) == g[i].0;
    assert KeysOf(g)[i] == g[i].0;
  }

  lemma GroupKeyIsRanked(infos: seq<CountryInfo>, k: string)
    requires KeyedBy(GroupInfos(infos), GroupKeyOf)
    requires k in KeysOf(GroupInfos(infos))
    ensures exists j :: 0 <= j < |RankGroups(infos)| && RankGroups(infos)[j].key == k
  {
    var g := GroupInfos(infos);
    var vs := ValuesOf(g);
    var r := RankGroups(infos);
    var m :| 0 <= m < |g| && KeysOf(g)[m] == k;
    assert GroupKeyOf(g[m].1) == g[m].0;
    assert vs[m] in multiset(r);
    var j :| 0 <= j < |r| && r[j] == vs[m];
  }

  // ---------------------------------------------------------------- one group's row

  /** The photo is counted in group `k`. */
  function InGroup(k: string): CountryInfo -> bool {
    (info: CountryInfo) => KnownInfo(info) && info.countryKey == k
  }

  /** No photo of group `k` before position `i` has a country code. */
  predicate NoCodeBefore(infos: seq<CountryInfo>, k: string, i: nat)
    requires i <= |infos|
  {
    forall j :: 0 <= j < i && InGroup(k)(infos[j]) ==> infos[j].countryCode == ""
  }

  /** `code` is the code of the group's first photo that has one, or "" when none has. */
  predicate FirstCodeIs(infos: seq<CountryInfo>, k: string, code: string) {
    if code == "" then NoCodeBefore(infos, k, |infos|)
    else exists i :: 0 <= i < |infos| && InGroup(k)(infos[i]) && infos[i].countryCode == code && NoCodeBefore(infos, k, i)
  }

  /** Position `i` holds the first photo of group `k`. */
  predicate FirstInGroup(infos: seq<CountryInfo>, k: string, i: int) {
    0 <= i < |infos| && InGroup(k)(infos[i]) && forall j :: 0 <= j < i ==> !InGroup(k)(infos[j])
  }

  /** `country` is the country of the group's first photo. */
  predicate FirstCountryIs(infos: seq<CountryInfo>, k: string, country: string) {
    exists i :: 0 <= i < |infos| && FirstInGroup(infos, k, i) && infos[i].country == country
  }

  /** The row the grouping loop builds for group `k`, followed on its own. */
  function RowFor(infos: seq<CountryInfo>, k: string): Option<CountryCount>
    decreases |infos|
  {
    if |infos| == 0 then None
    else
      var n := |infos| - 1;
      var before := RowFor(infos[..n], k);
      if InGroup(k)(infos[n]) then Some(Bump(infos[n])(before)) else before
  }

  lemma {:induction false} LookupIsRowFor(infos: seq<CountryInfo>, k: string)
    ensures Lookup(GroupInfos(infos), k) == RowFor(infos, k)
    decreases |infos|
  {
    if |infos| > 0 {
      var n := |infos| - 1;
      var info := infos[n];
      LookupIsRowFor(infos[..n], k);
      if KnownInfo(info) && info.countryKey != k {
        UpsertOthers(GroupInfos(infos[..n]), info.countryKey, Bump(info), k);
      }
    }
  }

  /** The row exists exactly when a photo is in the group, and counts them. */
  lemma {:induction false} RowForCount(infos: seq<CountryInfo>, k: string)
    ensures RowFor(infos, k).Some? <==> exists i :: 0 <= i < |infos| && InGroup(k)(infos[i])
    ensures RowFor(infos, k).Some? ==> RowFor(infos, k).value.count == Count(infos, InGroup(k))
    decreases |infos|
  {
    if |infos| > 0 {
      var n := |infos| - 1;
      var prefix := infos[..n];
      RowForCount(prefix, k);
      CountSnoc(prefix, infos[n], InGroup(k));
      assert infos == prefix + [infos[n]];
      if !InGroup(k)(infos[n]) {
        forall i | 0 <= i < |infos| && InGroup(k)(infos[i]) ensures i < n && InGroup(k)(prefix[i]) {
        }
      } else if RowFor(prefix, k).None? {
        CountNone(prefix, InGroup(k));
      }
      forall i | 0 <= i < n && InGroup(k)(prefix[i]) ensures InGroup(k)(infos[i]) {
      }
    }
  }

  /** The row keeps the code of the group's first photo that has one. */
  lemma {:induction false} RowForCode(infos: seq<CountryInfo>, k: string)
    ensures RowFor(infos, k).Some? ==> FirstCodeIs(infos, k, RowFor(infos, k).value.countryCode)
    decreases |infos|
  {
    if |infos| > 0 {
      var n := |infos| - 1;
      var prefix, x := infos[..n], infos[n];
      var before := RowFor(prefix, k);
      RowForCode(prefix, k);
      if before.Some? && before.value.countryCode != "" {
        var i :| 0 <= i < n && InGroup(k)(prefix[i]) && prefix[i].countryCode == before.value.countryCode
                 && NoCodeBefore(prefix, k, i);
        PrefixNoCode(infos, n, k, i);
        assert infos[i] == prefix[i];
      } else {
        if before.None? {
          RowForCount(prefix, k);
        }
        assert NoCodeBefore(prefix, k, n);
        PrefixNoCode(infos, n, k, n);
        if InGroup(k)(x) && x.countryCode != "" {
          assert infos[n] == x;
        } else {
          assert NoCodeBefore(infos, k, n + 1);
        }
      }
    }
  }

  lemma PrefixNoCode(infos: seq<CountryInfo>, n: nat, k: string, i: nat)
    requires i <= n <= |infos| && NoCodeBefore(infos[..n], k, i)
    ensures NoCodeBefore(infos, k, i)
  {
    assert forall j :: 0 <= j < i ==> infos[j] == infos[..n][j];
  }

  /** The row keeps the country of the group's first photo. */
  lemma {:induction false} RowForCountry(infos: seq<CountryInfo>, k: string)
    ensures RowFor(infos, k).Some? ==> FirstCountryIs(infos, k, RowFor(infos, k).value.country)
    decreases |infos|
  {
    if |infos| > 0 {
      var n := |infos| - 1;
      var prefix, x := infos[..n], infos[n];
      var before := RowFor(prefix, k);
      RowForCountry(prefix, k);
      if before.Some? {
        var i :| 0 <= i < n && FirstInGroup(prefix, k, i) && prefix[i].country == before.value.country;
        forall j | 0 <= j < i ensures !InGroup(k)(infos[j]) {
          assert infos[j] == prefix[j];
        }
        assert FirstInGroup(infos, k, i);
      } else if InGroup(k)(x) {
        RowForCount(prefix, k);
        forall j | 0 <= j < n ensures !InGroup(k)(infos[j]) {
          assert infos[j] == prefix[j];
        }
        assert FirstInGroup(infos, k, n);
      }
    }
  }

  /** Each country row counts the known-country photos of its group, shows
      the country of the group's first photo, and carries the code of the
      group's first photo that has one ("" when none has). */
  lemma RankedRows(infos: seq<CountryInfo>)
    ensures var r := RankGroups(infos);
            forall j :: 0 <= j < |r| ==>
              && r[j].count == Count(infos, InGroup(r[j].key))
              && FirstCountryIs(infos, r[j].key, r[j].country)
              && FirstCodeIs(infos, r[j].key, r[j].countryCode)
  {
    var r := RankGroups(infos);
    forall j | 0 <= j < |r|
      ensures && r[j].count == Count(infos, InGroup(r[j].key))
              && FirstCountryIs(infos, r[j].key, r[j].country)
              && FirstCodeIs(infos, r[j].key, r[j].countryCode)
    {
      RankedRow(infos, j);
    }
  }

  lemma RankedRow(infos: seq<CountryInfo>, j: int)
    requires 0 <= j < |RankGroups(infos)|
    ensures var c := RankGroups(infos)[j];
            && c.count == Count(infos, InGroup(c.key))
            && FirstCountryIs(infos, c.key, c.country)
            && FirstCodeIs(infos, c.key, c.countryCode)
  {
    var g := GroupInfos(infos);
    var vs := ValuesOf(g);
    var c := RankGroups(infos)[j];
    GroupInfosFacts(infos);
    assert c in multiset(vs);
    var m :| 0 <= m < |vs| && vs[m] == c;
    assert GroupKeyOf(g[m].1) == g[m].0;
    EntryIsLookup(g, m);
    LookupIsRowFor(infos, c.key);
    RowForCount(infos, c.key);
    RowForCode(infos, c.key);
    RowForCountry(infos, c.key);
  }
}
