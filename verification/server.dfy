/** The local proxy server: how Firestore documents are turned into plain
    JSON-ready values, and the decision `getPhotosWithCache` makes between
    serving the cached payload, reading Firestore again, and falling back to
    stale data. The clock and the Firestore read are parameters; the HTTP
    server, static files and credentials are not modelled. */
module Server {
  import opened Base
  import opened Text
  import opened Js

  // ---------------------------------------------------------------- Firestore values

  /** A value as the Firestore client hands it over: JSON-like values plus
      timestamps (objects with a `toDate` method). A geo-point is an object
      with `_latitude` and `_longitude` properties. */
  datatype FsValue =
    | FsUndefined
    | FsNull
    | FsBool(b: bool)
    | FsNum(n: Number)
    | FsStr(s: string)
    | Timestamp(seconds: int, nanoseconds: int)
    | FsArr(items: seq<FsValue>)
    | FsObj(fields: seq<(string, FsValue)>)

  /** `v[key]` on an object: its first property named `key`. */
  function FsGet(fields: seq<(string, FsValue)>, key: string): FsValue {
    if |fields| == 0 then FsUndefined
    else if fields[0].0 == key then fields[0].1
    else FsGet(fields[1..], key)
  }

  /** `val._latitude !== undefined && val._longitude !== undefined`. */
  predicate IsGeoPoint(v: FsValue) {
    v.FsObj? && FsGet(v.fields, "_latitude") != FsUndefined && FsGet(v.fields, "_longitude") != FsUndefined
  }

  /** `serializeFirestoreValue(val)`; `iso` is `toDate().toISOString()` of a
      timestamp's seconds and nanoseconds. */
  function Serialize(v: FsValue, iso: (int, int) -> string): (r: FsValue)
    ensures v.FsNull? || v.FsUndefined? ==> r == v
    ensures v.Timestamp? ==> r == FsStr(iso(v.seconds, v.nanoseconds))
    ensures IsGeoPoint(v) ==> r == v
    ensures v.FsArr? ==> r.FsArr? && |r.items| == |v.items|
                         && forall i :: 0 <= i < |v.items| ==> r.items[i] == Serialize(v.items[i], iso)
    ensures v.FsObj? && !IsGeoPoint(v) ==>
              r.FsObj? && |r.fields| == |v.fields|
              && forall i :: 0 <= i < |v.fields| ==>
                   r.fields[i].0 == v.fields[i].0 && r.fields[i].1 == Serialize(v.fields[i].1, iso)
    ensures v.FsBool? || v.FsNum? || v.FsStr? ==> r == v
    decreases v
  {
    match v
    case FsNull => v
    case FsUndefined => v
    case Timestamp(s, ns) => FsStr(iso(s, ns))
    case FsArr(items) =>
      FsArr(seq(|items|, i requires 0 <= i < |items| => Serialize(items[i], iso)))
    case FsObj(fields) =>
      if IsGeoPoint(v) then v
      else FsObj(seq(|fields|, i requires 0 <= i < |fields| => (fields[i].0, Serialize(fields[i].1, iso))))
    case _ => v
  }

  /** A value the serialiser leaves as it is: no timestamp, except inside a
      geo-point, which is passed through whole. */
  predicate Serialized(v: FsValue)
    decreases v
  {
    match v
    case Timestamp(_, _) => false
    case FsArr(items) => forall i :: 0 <= i < |items| ==> Serialized(items[i])
    case FsObj(fields) => IsGeoPoint(v) || forall i :: 0 <= i < |fields| ==> Serialized(fields[i].1)
    case _ => true
  }

  /** Serialising removes every timestamp that is not inside a geo-point. */
  lemma {:induction false} SerializeIsSerialized(v: FsValue, iso: (int, int) -> string)
    ensures Serialized(Serialize(v, iso))
    decreases v
  {
    var r := Serialize(v, iso);
    match v
    case FsArr(items) =>
      forall i | 0 <= i < |items| ensures Serialized(r.items[i]) {
        SerializeIsSerialized(items[i], iso);
      }
    case FsObj(fields) =>
      if !IsGeoPoint(v) {
        forall i | 0 <= i < |fields| ensures Serialized(r.fields[i].1) {
          SerializeIsSerialized(fields[i].1, iso);
        }
        SameKeysSameGeo(v, r);
      }
    case _ =>
  }

  /** Objects with the same property names in the same order, and the
      same `undefined`-ness at every position, agree on being geo-points. */
  lemma SameKeysSameGeo(v: FsValue, r: FsValue)
    requires v.FsObj? && r.FsObj? && |v.fields| == |r.fields|
    requires forall i :: 0 <= i < |v.fields| ==> v.fields[i].0 == r.fields[i].0
    requires forall i :: 0 <= i < |v.fields| ==> (v.fields[i].1 == FsUndefined <==> r.fields[i].1 == FsUndefined)
    ensures IsGeoPoint(v) <==> IsGeoPoint(r)
  {
    FsGetAligned(v.fields, r.fields, "_latitude");
    FsGetAligned(v.fields, r.fields, "_longitude");
  }

  lemma {:induction false} FsGetAligned(a: seq<(string, FsValue)>, b: seq<(string, FsValue)>, key: string)
    requires |a| == |b|
    requires forall i :: 0 <= i < |a| ==> a[i].0 == b[i].0
    requires forall i :: 0 <= i < |a| ==> (a[i].1 == FsUndefined <==> b[i].1 == FsUndefined)
    ensures FsGet(a, key) == FsUndefined <==> FsGet(b, key) == FsUndefined
    decreases |a|
  {
    if |a| > 0 && a[0].0 != key {
      FsGetAligned(a[1..], b[1..], key);
    }
  }

  /** The serialiser changes exactly the values that are not yet serialised,
      so applying it twice is the same as once. */
  lemma {:induction false} SerializeFixedPoint(v: FsValue, iso: (int, int) -> string)
    ensures Serialize(v, iso) == v <==> Serialized(v)
    decreases v
  {
    var r := Serialize(v, iso);
    match v
    case FsArr(items) =>
      forall i | 0 <= i < |items| ensures Serialize(items[i], iso) == items[i] <==> Serialized(items[i]) {
        SerializeFixedPoint(items[i], iso);
      }
      if Serialized(v) {
        assert r.items == items;
      } else {
        var i :| 0 <= i < |items| && !Serialized(items[i]);
        assert r.items[i] != items[i];
      }
    case FsObj(fields) =>
      if !IsGeoPoint(v) {
        forall i | 0 <= i < |fields| ensures Serialize(fields[i].1, iso) == fields[i].1 <==> Serialized(fields[i].1) {
          SerializeFixedPoint(fields[i].1, iso);
        }
        if Serialized(v) {
          assert r.fields == fields;
        } else {
          var i :| 0 <= i < |fields| && !Serialized(fields[i].1);
          assert r.fields[i] != fields[i];
        }
      }
    case _ =>
  }

  lemma SerializeIdempotent(v: FsValue, iso: (int, int) -> string)
    ensures Serialize(Serialize(v, iso), iso) == Serialize(v, iso)
  {
    SerializeIsSerialized(v, iso);
    SerializeFixedPoint(Serialize(v, iso), iso);
  }

  /** `fetchFirestorePhotos()` given the documents read: `{ photos }` keyed by
      document id, each document serialised. */
  function PhotosPayload(docs: seq<(string, FsValue)>, iso: (int, int) -> string): (r: FsValue)
    ensures r.FsObj? && |r.fields| == 1 && r.fields[0].0 == "photos"
    ensures var photos := r.fields[0].1;
            photos.FsObj? && |photos.fields| == |docs|
            && forall i :: 0 <= i < |docs| ==> photos.fields[i] == (docs[i].0, Serialize(docs[i].1, iso))
  {
    FsObj([("photos", FsObj(seq(|docs|, i requires 0 <= i < |docs| => (docs[i].0, Serialize(docs[i].1, iso)))))])
  }

  // ---------------------------------------------------------------- cache

  /** Five minutes, in milliseconds. */
  const DefaultTtl: Number := Fin(300000, 0)

  /** `Number(process.env.PHOTOS_CACHE_TTL_MS) || 5 * 60 * 1000`. */
  function CacheTtl(setting: Value): (ttl: Number)
    ensures !ttl.NaN? && Truthy(Num(ttl))
    ensures !Truthy(Num(ToNumber(setting))) ==> ttl == DefaultTtl
    ensures Truthy(Num(ToNumber(setting))) ==> ttl == ToNumber(setting)
  {
    var n := ToNumber(setting);
    if Truthy(Num(n)) then n else DefaultTtl
  }

  /** `photosCache`: the last payload read (`None` for `null`) and when it
      expires. */
  datatype Cache<P> = Cache(payload: Option<P>, expiresAt: Number)

  const Empty: Cache<FsValue> := Cache(None, Zero)

  /** A clock reading in milliseconds. */
  function Ms(t: int): Number {
    Fin(t, 0)
  }

  /** `photosCache.payload && photosCache.expiresAt > now`. */
  predicate IsFresh<P>(cache: Cache<P>, now: int) {
    cache.payload.Some? && Lt(Ms(now), cache.expiresAt)
  }

  /** What a request gets: a payload (and whether Firestore was read for
      it), or the error of a failed read with nothing cached. */
  datatype Served<P> = Payload(payload: P, read: bool) | ReadFailed(message: string)

  /** How the Firestore read went, and the clock when it finished. */
  datatype Read<P> = Read(result: Result<P>, finishedAt: int)

  /** `getPhotosWithCache()` for a request at `now` when no other read is in
      flight: the response and the cache afterwards. */
  function GetPhotosWithCache<P>(cache: Cache<P>, now: int, ttl: Number, read: Read<P>): (Served<P>, Cache<P>) {
    if IsFresh(cache, now) then (Payload(cache.payload.value, false), cache)
    else
      match read.result
      case Ok(p) => (Payload(p, true), Cache(Some(p), Add(Ms(read.finishedAt), ttl)))
      case Failure(m) =>
        if cache.payload.Some? then (Payload(cache.payload.value, true), cache) else (ReadFailed(m), cache)
  }

  /** Fresh data is served from the cache without reading; otherwise a
      successful read replaces the cache with an expiry `ttl` after the read
      finished, and a failed read serves the stale payload if there is one
      and fails otherwise, leaving the cache alone. */
  lemma CacheDecision<P>(cache: Cache<P>, now: int, ttl: Number, read: Read<P>)
    ensures var (served, after) := GetPhotosWithCache(cache, now, ttl, read);
            && (IsFresh(cache, now) ==> served == Payload(cache.payload.value, false) && after == cache)
            && (!IsFresh(cache, now) && read.result.Ok? ==>
                  served == Payload(read.result.value, true)
                  && after == Cache(Some(read.result.value), Add(Ms(read.finishedAt), ttl)))
            && (!IsFresh(cache, now) && read.result.Failure? ==>
                  after == cache
                  && served == if cache.payload.Some? then Payload(cache.payload.value, true)
                               else ReadFailed(read.result.message))
  {
  }

  /** After a successful read, a request less than `ttl` milliseconds after
      the read finished is served from the cache. */
  lemma RefreshedIsFresh<P>(cache: Cache<P>, now: int, ttl: Number, read: Read<P>, later: int)
    requires ttl.Fin? && !IsFresh(cache, now) && read.result.Ok?
    requires (later - read.finishedAt) as real < Val(ttl)
    ensures var after := GetPhotosWithCache(cache, now, ttl, read).1;
            IsFresh(after, later) && GetPhotosWithCache(after, later, ttl, read).0 == Payload(read.result.value, false)
  {
    AddVal(Ms(read.finishedAt), ttl);
    assert Val(Ms(read.finishedAt)) == read.finishedAt as real;
    assert Val(Ms(later)) == later as real;
  }

  /** Once the expiry has passed, the next request reads Firestore again. */
  lemma ExpiredIsRead<P>(cache: Cache<P>, now: int, ttl: Number, read: Read<P>)
    requires cache.payload.Some? && !Lt(Ms(now), cache.expiresAt) && read.result.Ok?
    ensures GetPhotosWithCache(cache, now, ttl, read).0 == Payload(read.result.value, true)
  {
  }

  /** The `/api/photos` response: the payload with status 200, or status
      500 with `{ error: "Firestore read failed: <message>" }`. */
  function ApiResponse<P>(served: Served<P>): (r: (int, Result<P>))
    ensures served.Payload? ==> r == (200, Ok(served.payload))
    ensures served.ReadFailed? ==> r.0 == 500 && r.1 == Failure("Firestore read failed: " + served.message)
  {
    match served
    case Payload(p, _) => (200, Ok(p))
    case ReadFailed(m) => (500, Failure("Firestore read failed: " + m))
  }
}
