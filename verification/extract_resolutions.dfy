/** The offline export script that resolves photo coordinates to countries:
    its command line, the grouping of photos into two-decimal coordinate
    buckets, and the rule that decides which buckets are looked up again.
    The Firestore read, the reverse-geocoding request, the file writes and
    the pauses between requests are left to the caller: the geocoder is a
    parameter and the cache read from disk is given as a table. */
module ExtractResolutions {
  import opened Base
  import opened Text
  import opened Js
  import opened Coords
  import opened Sums
  import opened Groups
  import opened Sorting
  import opened Ranking
  import Location

  // ---------------------------------------------------------------- arguments

  /** The output file, relative to the repository root. */
  const DefaultOutput := "exports/location-resolutions.json"

  /** `{ output, limit }`; `None` is the `null` limit. */
  datatype Args = Args(output: string, limit: Option<Number>)

  /** `Number.isFinite(n) && n > 0`. */
  predicate ValidLimit(n: Number) {
    IsFinite(n) && Lt(Zero, n)
  }

  /** The loop of `parseArgs` from position `i`; `resolve` is `path.resolve`. */
  function ParseFrom(argv: seq<string>, i: nat, args: Args, resolve: string -> string): (r: Args)
    ensures r.limit.Some? ==> r.limit == args.limit || ValidLimit(r.limit.value)
    decreases |argv| - i
  {
    if i >= |argv| then args
    else
      var token := argv[i];
      var hasValue := i + 1 < |argv| && argv[i + 1] != "";
      if token == "--output" && hasValue then
        ParseFrom(argv, i + 2, args.(output := resolve(argv[i + 1])), resolve)
      else if token == "--limit" && hasValue then
        var n := StringToNumber(argv[i + 1]);
        ParseFrom(argv, i + 2, if ValidLimit(n) then args.(limit := Some(n)) else args, resolve)
      else ParseFrom(argv, i + 1, args, resolve)
  }

  /** `parseArgs(argv)`: the options after the program and script names. */
  function ParseArgs(argv: seq<string>, resolve: string -> string): (r: Args)
    ensures r.limit.Some? ==> ValidLimit(r.limit.value)
  {
    ParseFrom(argv, 2, Args(DefaultOutput, None), resolve)
  }

  /** Without either flag the defaults stand: the default output file and
      no limit. */
  lemma {:induction false} NoFlagsKeepDefaults(argv: seq<string>, i: nat, args: Args, resolve: string -> string)
    requires forall j :: i <= j < |argv| ==> argv[j] != "--output" && argv[j] != "--limit"
    ensures ParseFrom(argv, i, args, resolve) == args
    decreases |argv| - i
  {
    if i < |argv| {
      NoFlagsKeepDefaults(argv, i + 1, args, resolve);
    }
  }

  lemma ParseArgsDefaults(argv: seq<string>, resolve: string -> string)
    requires forall j :: 2 <= j < |argv| ==> argv[j] != "--output" && argv[j] != "--limit"
    ensures ParseArgs(argv, resolve) == Args(DefaultOutput, None)
  {
    NoFlagsKeepDefaults(argv, 2, Args(DefaultOutput, None), resolve);
  }

  /** A flag in the last position has no value and is ignored. */
  lemma TrailingFlagIgnored(argv: seq<string>, args: Args, resolve: string -> string)
    requires |argv| > 0
    ensures ParseFrom(argv, |argv| - 1, args, resolve) == args
  {
  }

  /** `--limit v` sets the limit exactly when `v` is a finite positive
      number; any other value is consumed and leaves the limit unset. */
  lemma LimitFlag(program: string, script: string, v: string, resolve: string -> string)
    requires v != ""
    ensures ParseArgs([program, script, "--limit", v], resolve).output == DefaultOutput
    ensures ParseArgs([program, script, "--limit", v], resolve).limit ==
              (if ValidLimit(StringToNumber(v)) then Some(StringToNumber(v)) else None)
  {
    var argv := [program, script, "--limit", v];
    var n := StringToNumber(v);
    var after := if ValidLimit(n) then Args(DefaultOutput, Some(n)) else Args(DefaultOutput, None);
    assert argv[2] == "--limit" && argv[3] == v;
    assert ParseFrom(argv, 4, after, resolve) == after;
  }

  /** `--output p` replaces the output file by the resolved path. */
  lemma OutputFlag(program: string, script: string, p: string, resolve: string -> string)
    requires p != ""
    ensures ParseArgs([program, script, "--output", p], resolve) == Args(resolve(p), None)
  {
    var argv := [program, script, "--output", p];
    assert argv[2] == "--output" && argv[3] == p;
    assert ParseFrom(argv, 4, Args(resolve(p), None), resolve) == Args(resolve(p), None);
  }

  /** `limit ? buckets.slice(0, limit) : buckets`. */
  function LimitBuckets<T>(buckets: seq<T>, limit: Option<Number>): (r: seq<T>)
    ensures |r| <= |buckets| && r == buckets[..|r|]
  {
    if limit.Some? && Truthy(Num(limit.value)) then buckets[..SliceEnd(|buckets|, limit.value)] else buckets
  }

  /** A whole-number limit keeps that many buckets from the front. */
  lemma LimitBucketsCount<T>(buckets: seq<T>, k: nat)
    requires k > 0
    ensures LimitBuckets(buckets, Some(Fin(k, 0))) == buckets[..(if k < |buckets| then k else |buckets|)]
  {
    SliceEndOfNonNegative(|buckets|, k);
  }

  // ---------------------------------------------------------------- buckets

  /** `keyFromCoord(lat, lon)`: two-decimal `"lat, lon"`, the same key the
      dashboard's resolution table uses. */
  function KeyFromCoord(lat: Number, lon: Number): (r: string)
    ensures r == Location.ToResolutionKey(lat, lon)
    ensures lat.Fin? && lon.Fin? ==> ParsePairKey(r, CommaSpace) == Some((Hundredths(lat), Hundredths(lon)))
  {
    PairKey(lat, lon, CommaSpace)
  }

  /** Where a photo stands for the export: no usable coordinates, exactly
      (0, 0), or a finite point with its bucket key. */
  datatype Coord = Missing | ZeroZero | At(key: string, lat: Finite, lon: Finite)

  /** `Number(photo?.location?._latitude)` and the longitude. */
  function RawCoordinates(photo: Value): (Number, Number) {
    var location := Get(photo, "location");
    (ToNumber(Get(location, "_latitude")), ToNumber(Get(location, "_longitude")))
  }

  /** The two `continue` checks of `buildBuckets`, then the bucket key. */
  function Classify(photo: Value): (c: Coord)
    ensures var (lat, lon) := RawCoordinates(photo);
            && (c.Missing? <==> !IsFinite(lat) || !IsFinite(lon))
            && (c.ZeroZero? <==> IsFinite(lat) && IsFinite(lon) && NumEq(lat, Zero) && NumEq(lon, Zero))
            && (c.At? ==> (c.lat, c.lon) == (lat, lon) && c.key == KeyFromCoord(lat, lon))
  {
    var (lat, lon) := RawCoordinates(photo);
    if !IsFinite(lat) || !IsFinite(lon) then Missing
    else if NumEq(lat, Zero) && NumEq(lon, Zero) then ZeroZero
    else At(KeyFromCoord(lat, lon), lat, lon)
  }

  /** The photos in key order: `photos[id] || {}` for each id. */
  function Records(photos: Value): (r: seq<Value>)
    ensures |r| == |Keys(photos)|
  {
    var ids := Keys(photos);
    seq(|ids|, i requires 0 <= i < |ids| => Or(Get(photos, ids[i]), Obj([])))
  }

  /** `{ key, lat, lon, count }`. */
  datatype Bucket = Bucket(key: string, lat: Finite, lon: Finite, count: nat)

  function BucketKey(b: Bucket): string {
    b.key
  }

  function BucketCount(b: Bucket): nat {
    b.count
  }

  function BucketCountInt(b: Bucket): int {
    b.count
  }

  /** `(buckets.get(key) || { key, lat, lon, count: 0 })` with one more photo. */
  function Bump(key: string, lat: Finite, lon: Finite): Option<Bucket> -> Bucket {
    (o: Option<Bucket>) => if o.Some? then o.value.(count := o.value.count + 1) else Bucket(key, lat, lon, 1)
  }

  /** The three tallies of the loop of `buildBuckets`. */
  datatype Tally = Tally(buckets: Table<string, Bucket>, missing: nat, zeroZero: nat)

  /** The loop of `buildBuckets` over the photos seen so far, each photo
      placed by `classify`. */
  function Tallied(photos: seq<Value>, classify: Value -> Coord): Tally {
    if |photos| == 0 then Tally([], 0, 0)
    else
      var t := Tallied(photos[..|photos| - 1], classify);
      match classify(photos[|photos| - 1])
      case Missing => t.(missing := t.missing + 1)
      case ZeroZero => t.(zeroZero := t.zeroZero + 1)
      case At(key, lat, lon) => t.(buckets := Upsert(t.buckets, key, Bump(key, lat, lon)))
  }

  /** `{ buckets, missingCoords, zeroZeroCoords }`. */
  datatype BucketReport = BucketReport(buckets: seq<Bucket>, missingCoords: nat, zeroZeroCoords: nat)

  /** `(a, b) => b.count - a.count || a.key.localeCompare(b.key)`. */
  function ByCount(): (Bucket, Bucket) -> bool {
    ByIntRank(BucketCountInt, BucketKey)
  }

  /** The tallies as reported: the buckets in `ByCount` order. */
  function Report(t: Tally): BucketReport {
    BucketReport(SortBy(ValuesOf(t.buckets), ByCount()), t.missing, t.zeroZero)
  }

  /** `buildBuckets(photos)`. */
  function BuildBuckets(photos: Value): BucketReport {
    Report(Tallied(Records(photos), Classify))
  }

  function IsMissing(classify: Value -> Coord): Value -> bool {
    (photo: Value) => classify(photo).Missing?
  }

  function IsZeroZero(classify: Value -> Coord): Value -> bool {
    (photo: Value) => classify(photo).ZeroZero?
  }

  function IsBucketed(classify: Value -> Coord): Value -> bool {
    (photo: Value) => classify(photo).At?
  }

  function InBucket(classify: Value -> Coord, key: string): Value -> bool {
    (photo: Value) => classify(photo).At? && classify(photo).key == key
  }

  /** Some photo goes into `key`, and the first one that does is at
      (`lat`, `lon`). */
  predicate FirstSeenAt(photos: seq<Value>, classify: Value -> Coord, key: string, lat: Finite, lon: Finite) {
    exists i :: 0 <= i < |photos| && classify(photos[i]) == At(key, lat, lon)
      && Count(photos[..i], InBucket(classify, key)) == 0
  }

  // ---------------------------------------------------------------- loop facts

  /** Every photo lands in exactly one tally. */
  lemma {:induction false} TallyPartition(photos: seq<Value>, classify: Value -> Coord)
    ensures var t := Tallied(photos, classify);
            && t.missing == Count(photos, IsMissing(classify))
            && t.zeroZero == Count(photos, IsZeroZero(classify))
            && NatTotal(t.buckets, BucketCount) == Count(photos, IsBucketed(classify))
            && NatTotal(t.buckets, BucketCount) + t.missing + t.zeroZero == |photos|
    decreases |photos|
  {
    if |photos| > 0 {
      var s, x := photos[..|photos| - 1], photos[|photos| - 1];
      assert photos == s + [x];
      TallyPartition(s, classify);
      CountSnoc(s, x, IsMissing(classify));
      CountSnoc(s, x, IsZeroZero(classify));
      CountSnoc(s, x, IsBucketed(classify));
      var t := Tallied(s, classify);
      match classify(x)
      case At(key, lat, lon) =>
        NatTotalUpsert(t.buckets, key, Bump(key, lat, lon), BucketCount, 1);
      case _ =>
    }
  }

  /** Bucket keys are distinct and each bucket records its own key. */
  lemma {:induction false} TallyKeyed(photos: seq<Value>, classify: Value -> Coord)
    ensures UniqueKeys(Tallied(photos, classify).buckets)
    ensures KeyedBy(Tallied(photos, classify).buckets, BucketKey)
    decreases |photos|
  {
    if |photos| > 0 {
      var s, x := photos[..|photos| - 1], photos[|photos| - 1];
      TallyKeyed(s, classify);
      var t := Tallied(s, classify);
      match classify(x)
      case At(key, lat, lon) =>
        UpsertKeepsUnique(t.buckets, key, Bump(key, lat, lon));
        UpsertKeepsKeyed(t.buckets, key, Bump(key, lat, lon), BucketKey);
      case _ =>
    }
  }

  /** A photo that goes into another bucket, or none, leaves `key`'s
      bucket as it was. */
  lemma OtherPhotoKeepsBucket(t: Tally, c: Coord, key: string, after: Tally)
    requires !(c.At? && c.key == key)
    requires after == match c
                      case Missing => t.(missing := t.missing + 1)
                      case ZeroZero => t.(zeroZero := t.zeroZero + 1)
                      case At(k, lat, lon) => t.(buckets := Upsert(t.buckets, k, Bump(k, lat, lon)))
    ensures Lookup(after.buckets, key) == Lookup(t.buckets, key)
  {
    if c.At? {
      UpsertOthers(t.buckets, c.key, Bump(c.key, c.lat, c.lon), key);
    }
  }

  /** What the loop stores under `key`: nothing if no photo goes there, and
      otherwise the number of photos that do, at the point of the first. */
  lemma {:induction false} TallyLookup(photos: seq<Value>, classify: Value -> Coord, key: string)
    ensures var found := Lookup(Tallied(photos, classify).buckets, key);
            && (found.None? ==> Count(photos, InBucket(classify, key)) == 0)
            && (found.Some? ==>
                  && found.value.key == key
                  && found.value.count == Count(photos, InBucket(classify, key))
                  && FirstSeenAt(photos, classify, key, found.value.lat, found.value.lon))
    decreases |photos|
  {
    if |photos| > 0 {
      var s, x := photos[..|photos| - 1], photos[|photos| - 1];
      assert photos == s + [x];
      TallyLookup(s, classify, key);
      CountSnoc(s, x, InBucket(classify, key));
      var t := Tallied(s, classify);
      var before := Lookup(t.buckets, key);
      var after := Lookup(Tallied(photos, classify).buckets, key);
      var c := classify(x);
      if c.At? && c.key == key {
        assert after == Some(Bump(key, c.lat, c.lon)(before));
        if before.None? {
          assert photos[..|s|] == s;
        } else {
          SeenStaysFirst(s, x, classify, key, before.value.lat, before.value.lon);
        }
      } else {
        OtherPhotoKeepsBucket(t, c, key, Tallied(photos, classify));
        if before.Some? {
          SeenStaysFirst(s, x, classify, key, before.value.lat, before.value.lon);
        }
      }
    }
  }

  /** A first photo stays the first when more photos follow. */
  lemma SeenStaysFirst(s: seq<Value>, x: Value, classify: Value -> Coord, key: string, lat: Finite, lon: Finite)
    requires FirstSeenAt(s, classify, key, lat, lon)
    ensures FirstSeenAt(s + [x], classify, key, lat, lon)
  {
    var i :| 0 <= i < |s| && classify(s[i]) == At(key, lat, lon) && Count(s[..i], InBucket(classify, key)) == 0;
    assert (s + [x])[i] == s[i] && (s + [x])[..i] == s[..i];
  }

  /** `count(a, b) <= 0` as a relation on counts and keys. */
  predicate RankedBuckets(buckets: seq<Bucket>) {
    forall i, j :: 0 <= i < j < |buckets| ==>
      buckets[j].count < buckets[i].count
      || (buckets[j].count == buckets[i].count && LexLe(buckets[i].key, buckets[j].key))
  }

  /** Sorting buckets stored under their own distinct keys gives distinct
      keys in `ByCount` order. */
  lemma ReportOrder(t: Tally)
    requires UniqueKeys(t.buckets) && KeyedBy(t.buckets, BucketKey)
    ensures DistinctBy(Report(t).buckets, BucketKey)
    ensures RankedBuckets(Report(t).buckets)
  {
    var r := Report(t).buckets;
    KeyedValuesDistinct(t.buckets, BucketKey);
    SortByDistinct(ValuesOf(t.buckets), ByCount(), BucketKey);
    IntRankPreorder(BucketCountInt, BucketKey);
    SortBySorted(ValuesOf(t.buckets), ByCount());
    forall i, j | 0 <= i < j < |r|
      ensures r[j].count < r[i].count || (r[j].count == r[i].count && LexLe(r[i].key, r[j].key))
    {
      SortedPairs(r, ByCount(), i, j);
      var le := ByIntRank(BucketCountInt, BucketKey);
      assert le(r[i], r[j]);
      assert IntRankLe(BucketCountInt(r[i]), BucketKey(r[i]), BucketCountInt(r[j]), BucketKey(r[j]));
    }
  }

  /** Each reported bucket is the one stored under its key. */
  lemma ReportedIsStored(t: Tally, i: nat)
    requires UniqueKeys(t.buckets) && KeyedBy(t.buckets, BucketKey)
    requires i < |Report(t).buckets|
    ensures Lookup(t.buckets, Report(t).buckets[i].key) == Some(Report(t).buckets[i])
  {
    var vs := ValuesOf(t.buckets);
    var b := Report(t).buckets[i];
    assert b in multiset(vs);
    var j :| 0 <= j < |vs| && vs[j] == b;
    assert t.buckets[j].1 == b && t.buckets[j].0 == b.key;
    LookupOfEntry(t.buckets, j);
  }

  /** Each stored bucket is reported. */
  lemma StoredIsReported(t: Tally, key: string)
    requires Lookup(t.buckets, key).Some?
    ensures Lookup(t.buckets, key).value in Report(t).buckets
  {
    LookupFound(t.buckets, key);
    var j :| 0 <= j < |t.buckets| && t.buckets[j] == (key, Lookup(t.buckets, key).value);
    assert ValuesOf(t.buckets)[j] in multiset(Report(t).buckets);
  }

  // ---------------------------------------------------------------- report facts

  /** Each photo is counted once: missing, at (0, 0), or in one bucket. */
  lemma BuildBucketsPartition(photos: Value)
    ensures var r := BuildBuckets(photos);
            && r.missingCoords == Count(Records(photos), IsMissing(Classify))
            && r.zeroZeroCoords == Count(Records(photos), IsZeroZero(Classify))
            && NatSum(r.buckets, BucketCount) + r.missingCoords + r.zeroZeroCoords == |Keys(photos)|
  {
    var t := Tallied(Records(photos), Classify);
    TallyPartition(Records(photos), Classify);
    NatTotalOfValues(t.buckets, BucketCount);
    NatSumPermutation(ValuesOf(t.buckets), Report(t).buckets, BucketCount);
  }

  /** Buckets have distinct keys and come largest first, equal counts by key. */
  lemma BuildBucketsOrder(photos: Value)
    ensures DistinctBy(BuildBuckets(photos).buckets, BucketKey)
    ensures RankedBuckets(BuildBuckets(photos).buckets)
  {
    TallyKeyed(Records(photos), Classify);
    ReportOrder(Tallied(Records(photos), Classify));
  }

  /** Each bucket counts exactly the photos that round to its key and keeps
      the coordinates of the first of them; every bucketed photo has its
      bucket. */
  lemma BuildBucketsContents(photos: Value)
    ensures var recs, r := Records(photos), BuildBuckets(photos).buckets;
            && (forall i :: 0 <= i < |r| ==>
                  && r[i].count == Count(recs, InBucket(Classify, r[i].key))
                  && FirstSeenAt(recs, Classify, r[i].key, r[i].lat, r[i].lon))
            && (forall i :: 0 <= i < |recs| && Classify(recs[i]).At? ==>
                  exists j :: 0 <= j < |r| && r[j].key == Classify(recs[i]).key)
  {
    var recs := Records(photos);
    assert BuildBuckets(photos) == Report(Tallied(recs, Classify));
    BucketsCounted(recs, Classify);
    BucketsCover(recs, Classify);
  }

  /** Each reported bucket counts the photos of its key from the first. */
  lemma BucketsCounted(recs: seq<Value>, classify: Value -> Coord)
    ensures var r := Report(Tallied(recs, classify)).buckets;
            forall i :: 0 <= i < |r| ==>
              && r[i].count == Count(recs, InBucket(classify, r[i].key))
              && FirstSeenAt(recs, classify, r[i].key, r[i].lat, r[i].lon)
  {
    var r := Report(Tallied(recs, classify)).buckets;
    forall i | 0 <= i < |r|
      ensures r[i].count == Count(recs, InBucket(classify, r[i].key))
      ensures FirstSeenAt(recs, classify, r[i].key, r[i].lat, r[i].lon)
    {
      ReportedRow(recs, classify, i);
    }
  }

  lemma ReportedRow(recs: seq<Value>, classify: Value -> Coord, i: nat)
    requires i < |Report(Tallied(recs, classify)).buckets|
    ensures var b := Report(Tallied(recs, classify)).buckets[i];
            b.count == Count(recs, InBucket(classify, b.key)) && FirstSeenAt(recs, classify, b.key, b.lat, b.lon)
  {
    var t := Tallied(recs, classify);
    TallyKeyed(recs, classify);
    ReportedIsStored(t, i);
    TallyLookup(recs, classify, Report(t).buckets[i].key);
  }

  /** Every photo with a point has its bucket in the report. */
  lemma BucketsCover(recs: seq<Value>, classify: Value -> Coord)
    ensures forall i :: 0 <= i < |recs| && classify(recs[i]).At? ==>
              HasBucket(Report(Tallied(recs, classify)).buckets, classify(recs[i]).key)
  {
    forall i | 0 <= i < |recs| && classify(recs[i]).At?
      ensures HasBucket(Report(Tallied(recs, classify)).buckets, classify(recs[i]).key)
    {
      var j := BucketReported(recs, classify, i);
    }
  }

  predicate HasBucket(r: seq<Bucket>, key: string) {
    exists j :: 0 <= j < |r| && r[j].key == key
  }

  lemma BucketReported(recs: seq<Value>, classify: Value -> Coord, i: nat) returns (j: int)
    requires i < |recs| && classify(recs[i]).At?
    ensures var r := Report(Tallied(recs, classify)).buckets;
            0 <= j < |r| && r[j].key == classify(recs[i]).key
  {
    var t := Tallied(recs, classify);
    var key := classify(recs[i]).key;
    TallyLookup(recs, classify, key);
    CountPositive(recs, InBucket(classify, key), i);
    StoredIsReported(t, key);
    var b := Lookup(t.buckets, key).value;
    assert b.key == key;
    j :| 0 <= j < |Report(t).buckets| && Report(t).buckets[j] == b;
  }

  /** In a table with distinct keys, looking up an entry's key finds it. */
  lemma {:induction false} LookupOfEntry<K, V>(t: Table<K, V>, j: nat)
    requires UniqueKeys(t) && j < |t|
    ensures Lookup(t, t[j].0) == Some(t[j].1)
    decreases |t|
  {
    if j > 0 {
      LookupOfEntry(t[1..], j - 1);
    }
  }

  /** An element that satisfies `p` makes the count positive. */
  lemma {:induction false} CountPositive<T>(s: seq<T>, p: T -> bool, i: nat)
    requires i < |s| && p(s[i])
    ensures Count(s, p) > 0
    decreases |s|
  {
    if i > 0 {
      CountPositive(s[1..], p, i - 1);
    }
  }

  // ---------------------------------------------------------------- resolution

  /** What the geocoder reports for a point: `{ status, country, detail }`. */
  datatype GeoResult = GeoResult(status: string, country: Value, detail: Value)

  /** `cached && cached.status === 'ok'`. */
  predicate IsResolved(cached: Option<Value>) {
    cached.Some? && Truthy(cached.value) && Get(cached.value, "status") == Str("ok")
  }

  /** The record the loop stores for a bucket it looked up. */
  function Entry(b: Bucket, result: GeoResult): Value {
    Obj([("key", Str(b.key)), ("lat", Num(b.lat)), ("lon", Num(b.lon)), ("count", Num(NatNumber(b.count))),
         ("country", result.country), ("status", Str(result.status)), ("detail", result.detail)])
  }

  /** The refresh record for a bucket, looked up with `geocode`. */
  function Looked(geocode: (Number, Number) -> GeoResult): Bucket -> Value {
    (b: Bucket) => Entry(b, geocode(b.lat, b.lon))
  }

  function Store(entry: Value): Option<Value> -> Value {
    (o: Option<Value>) => entry
  }

  /** The main loop: skip a bucket whose cached record is resolved,
      otherwise store a refresh record (`refresh`, the lookup) for it. Also
      returns the number of lookups made. */
  function Resolve(buckets: seq<Bucket>, cache: Table<string, Value>, refresh: Bucket -> Value)
    : (Table<string, Value>, nat)
  {
    if |buckets| == 0 then (cache, 0)
    else
      var b := buckets[0];
      if IsResolved(Lookup(cache, b.key)) then Resolve(buckets[1..], cache, refresh)
      else
        var next := Upsert(cache, b.key, Store(refresh(b)));
        var (final, looked) := Resolve(buckets[1..], next, refresh);
        (final, looked + 1)
  }

  function Unresolved(cache: Table<string, Value>): Bucket -> bool {
    (b: Bucket) => !IsResolved(Lookup(cache, b.key))
  }

  /** Two predicates that agree on every element count alike. */
  lemma {:induction false} CountAgrees<T>(s: seq<T>, p: T -> bool, q: T -> bool)
    requires forall i :: 0 <= i < |s| ==> p(s[i]) == q(s[i])
    ensures Count(s, p) == Count(s, q)
    decreases |s|
  {
    if |s| > 0 {
      CountAgrees(s[1..], p, q);
    }
  }

  /** No bucket key other than the first repeats the first one. */
  lemma DistinctRest(buckets: seq<Bucket>)
    requires |buckets| > 0 && DistinctBy(buckets, BucketKey)
    ensures DistinctBy(buckets[1..], BucketKey)
    ensures forall i :: 0 <= i < |buckets[1..]| ==> buckets[1..][i].key != buckets[0].key
  {
    forall i | 0 <= i < |buckets[1..]| ensures buckets[1..][i].key != buckets[0].key {
      assert buckets[1..][i] == buckets[i + 1];
    }
  }

  /** Records under keys of no bucket are untouched. */
  lemma {:induction false} ResolveKeepsOthers(buckets: seq<Bucket>, cache: Table<string, Value>,
                                              refresh: Bucket -> Value, k: string)
    requires forall i :: 0 <= i < |buckets| ==> buckets[i].key != k
    ensures Lookup(Resolve(buckets, cache, refresh).0, k) == Lookup(cache, k)
    decreases |buckets|
  {
    if |buckets| > 0 {
      var b := buckets[0];
      assert forall i :: 0 <= i < |buckets[1..]| ==> buckets[1..][i] == buckets[i + 1];
      if IsResolved(Lookup(cache, b.key)) {
        ResolveKeepsOthers(buckets[1..], cache, refresh, k);
      } else {
        var next := Upsert(cache, b.key, Store(refresh(b)));
        ResolveKeepsOthers(buckets[1..], next, refresh, k);
        UpsertOthers(cache, b.key, Store(refresh(b)), k);
      }
    }
  }

  /** A resolved record is kept and every other bucket's record is replaced
      by a refresh one. */
  lemma {:induction false} ResolveBucket(buckets: seq<Bucket>, cache: Table<string, Value>,
                                         refresh: Bucket -> Value, i: nat)
    requires DistinctBy(buckets, BucketKey) && i < |buckets|
    ensures Lookup(Resolve(buckets, cache, refresh).0, buckets[i].key) ==
              if IsResolved(Lookup(cache, buckets[i].key)) then Lookup(cache, buckets[i].key)
              else Some(refresh(buckets[i]))
    decreases |buckets|
  {
    var b := buckets[0];
    DistinctRest(buckets);
    var next := if IsResolved(Lookup(cache, b.key)) then cache else Upsert(cache, b.key, Store(refresh(b)));
    assert Resolve(buckets, cache, refresh).0 == Resolve(buckets[1..], next, refresh).0;
    if i == 0 {
      ResolveKeepsOthers(buckets[1..], next, refresh, b.key);
    } else {
      assert buckets[i] == buckets[1..][i - 1];
      ResolveBucket(buckets[1..], next, refresh, i - 1);
      if next != cache {
        UpsertOthers(cache, b.key, Store(refresh(b)), buckets[i].key);
      }
    }
  }

  /** One lookup per bucket whose record was not resolved to begin with. */
  lemma {:induction false} ResolveLookups(buckets: seq<Bucket>, cache: Table<string, Value>, refresh: Bucket -> Value)
    requires DistinctBy(buckets, BucketKey)
    ensures Resolve(buckets, cache, refresh).1 == Count(buckets, Unresolved(cache))
    decreases |buckets|
  {
    if |buckets| > 0 {
      var b, rest := buckets[0], buckets[1..];
      DistinctRest(buckets);
      if IsResolved(Lookup(cache, b.key)) {
        ResolveLookups(rest, cache, refresh);
      } else {
        var next := Upsert(cache, b.key, Store(refresh(b)));
        ResolveLookups(rest, next, refresh);
        forall i | 0 <= i < |rest| ensures Unresolved(next)(rest[i]) == Unresolved(cache)(rest[i]) {
          UpsertOthers(cache, b.key, Store(refresh(b)), rest[i].key);
        }
        CountAgrees(rest, Unresolved(next), Unresolved(cache));
      }
    }
  }

  /** The export run from the photos, the arguments and the cache read from
      disk: the table of records after the loop and the number of lookups. */
  function Run(photos: Value, args: Args, existing: Table<string, Value>, geocode: (Number, Number) -> GeoResult)
    : (Table<string, Value>, nat)
  {
    Resolve(LimitBuckets(BuildBuckets(photos).buckets, args.limit), existing, Looked(geocode))
  }

  /** Over a run, a bucket whose cached record has status "ok" is never
      looked up again and every other bucket within the limit is; records
      of other keys are untouched. */
  lemma RunSkipsResolved(photos: Value, args: Args, existing: Table<string, Value>,
                         geocode: (Number, Number) -> GeoResult)
    ensures var limited := LimitBuckets(BuildBuckets(photos).buckets, args.limit);
            var (final, looked) := Run(photos, args, existing, geocode);
            && (forall i :: 0 <= i < |limited| ==>
                  Lookup(final, limited[i].key) ==
                    if IsResolved(Lookup(existing, limited[i].key)) then Lookup(existing, limited[i].key)
                    else Some(Entry(limited[i], geocode(limited[i].lat, limited[i].lon))))
            && (forall k :: (forall i :: 0 <= i < |limited| ==> limited[i].key != k) ==>
                  Lookup(final, k) == Lookup(existing, k))
            && looked == Count(limited, Unresolved(existing))
  {
    var all := BuildBuckets(photos).buckets;
    var limited := LimitBuckets(all, args.limit);
    BuildBucketsOrder(photos);
    assert DistinctBy(limited, BucketKey) by {
      forall i, j | 0 <= i < j < |limited| ensures limited[i].key != limited[j].key {
        assert limited[i] == all[i] && limited[j] == all[j];
      }
    }
    forall i | 0 <= i < |limited|
      ensures Lookup(Resolve(limited, existing, Looked(geocode)).0, limited[i].key) ==
                if IsResolved(Lookup(existing, limited[i].key)) then Lookup(existing, limited[i].key)
                else Some(Entry(limited[i], geocode(limited[i].lat, limited[i].lon)))
    {
      ResolveBucket(limited, existing, Looked(geocode), i);
    }
    forall k | forall i :: 0 <= i < |limited| ==> limited[i].key != k
      ensures Lookup(Resolve(limited, existing, Looked(geocode)).0, k) == Lookup(existing, k)
    {
      ResolveKeepsOthers(limited, existing, Looked(geocode), k);
    }
    ResolveLookups(limited, existing, Looked(geocode));
  }
}
