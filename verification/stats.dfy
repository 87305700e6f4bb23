/** js/stats.js: the summary sums and counts, and the brand/label leaderboard
    in which a record with no categories counts once under "undefined". */
module Stats {
  import opened Base
  import opened Text
  import opened Js
  import opened Sums
  import opened Sorting
  import opened Groups
  import opened Ranking
  import opened PhotoHelpers

  // ---------------------------------------------------------------- sums and counts

  /** The optional predicate of `sumPieces` and `countPhotos`: an absent one
      selects every record. */
  predicate Selected(sel: Option<Value -> bool>, photo: Value) {
    sel.None? || sel.value(photo)
  }

  function SelectedBy(sel: Option<Value -> bool>): Value -> bool {
    (photo: Value) => Selected(sel, photo)
  }

  predicate Unmoderated(photo: Value) {
    !IsModerated(photo)
  }

  /** `sumPieces`: the loop adding the pieces of each selected record, in key order. */
  function SumPieces(photos: Photos, sel: Option<Value -> bool>): Number
    decreases |photos|
  {
    if |photos| == 0 then Zero
    else
      var n := |photos| - 1;
      var sum := SumPieces(photos[..n], sel);
      if Selected(sel, photos[n].1) then Add(sum, Pieces(photos[n].1)) else sum
  }

  /** `countPhotos`. */
  function CountPhotos(photos: Photos, sel: Option<Value -> bool>): nat
    decreases |photos|
  {
    if |photos| == 0 then 0
    else
      var n := |photos| - 1;
      var count := CountPhotos(photos[..n], sel);
      if Selected(sel, photos[n].1) then count + 1 else count
  }

  function SumTotalPieces(photos: Photos): Number {
    SumPieces(photos, None)
  }

  function SumModeratedPieces(photos: Photos): Number {
    SumPieces(photos, Some(IsModerated))
  }

  function SumUnmoderatedPieces(photos: Photos): Number {
    SumPieces(photos, Some(Unmoderated))
  }

  function CountModerated(photos: Photos): nat {
    CountPhotos(photos, Some(IsModerated))
  }

  function CountUnmoderated(photos: Photos): nat {
    CountPhotos(photos, Some(Unmoderated))
  }

  /** The accumulation loop computes Σ pieces over the selected records. */
  lemma {:induction false} SumPiecesIsSum(photos: Photos, sel: Option<Value -> bool>)
    ensures SumPieces(photos, sel) == Sum(Filter(ValuesOf(photos), SelectedBy(sel)), Pieces)
    decreases |photos|
  {
    if |photos| > 0 {
      var n := |photos| - 1;
      var p := SelectedBy(sel);
      SumPiecesIsSum(photos[..n], sel);
      ValuesOfAppend(photos[..n], photos[n]);
      assert photos[..n] + [photos[n]] == photos;
      FilterAppend(ValuesOf(photos[..n]), [photos[n].1], p);
      if p(photos[n].1) {
        assert Filter([photos[n].1], p) == [photos[n].1];
        SumSnoc(Filter(ValuesOf(photos[..n]), p), photos[n].1, Pieces);
      } else {
        assert Filter([photos[n].1], p) == [];
        assert Filter(ValuesOf(photos[..n]), p) + [] == Filter(ValuesOf(photos[..n]), p);
      }
    }
  }

  /** The counting loop counts the selected records. */
  lemma {:induction false} CountPhotosIsCount(photos: Photos, sel: Option<Value -> bool>)
    ensures CountPhotos(photos, sel) == Count(ValuesOf(photos), SelectedBy(sel))
    decreases |photos|
  {
    if |photos| > 0 {
      var n := |photos| - 1;
      CountPhotosIsCount(photos[..n], sel);
      ValuesOfAppend(photos[..n], photos[n]);
      assert photos[..n] + [photos[n]] == photos;
      CountSnoc(ValuesOf(photos[..n]), photos[n].1, SelectedBy(sel));
    }
  }

  /** `sumTotalPieces` is Σ getPieces over every record. */
  lemma SumTotalPiecesIsSum(photos: Photos)
    ensures SumTotalPieces(photos) == Sum(ValuesOf(photos), Pieces)
  {
    SumPiecesIsSum(photos, None);
    FilterAll(ValuesOf(photos), SelectedBy(None));
  }

  /** Moderated and unmoderated pieces add up to the total. */
  lemma PiecesPartition(photos: Photos)
    ensures Add(SumModeratedPieces(photos), SumUnmoderatedPieces(photos)) == SumTotalPieces(photos)
  {
    SumPiecesIsSum(photos, Some(IsModerated));
    SumPiecesIsSum(photos, Some(Unmoderated));
    SumTotalPiecesIsSum(photos);
    SumSplit(ValuesOf(photos), Pieces, SelectedBy(Some(IsModerated)), SelectedBy(Some(Unmoderated)));
  }

  /** Every record is moderated or unmoderated, never both. */
  lemma CountPartition(photos: Photos)
    ensures CountModerated(photos) + CountUnmoderated(photos) == |photos|
  {
    CountPhotosIsCount(photos, Some(IsModerated));
    CountPhotosIsCount(photos, Some(Unmoderated));
    CountSplit(ValuesOf(photos), SelectedBy(Some(IsModerated)), SelectedBy(Some(Unmoderated)));
  }

  // ---------------------------------------------------------------- category totals

  type Totals = Table<string, Finite>

  function AsNumber(v: Finite): Number {
    v
  }

  predicate PositiveTotal(v: Finite) {
    Positive(v)
  }

  /** `(totals.get(key) || 0) + d`. */
  function AddTo(d: Finite): Option<Finite> -> Finite {
    (current: Option<Finite>) =>
      var base: Finite := if current.Some? && Truthy(Num(current.value)) then current.value else Zero;
      Add(base, d)
  }

  /** The bucket name used for a record with no categories. */
  const Uncategorised := "undefined"

  /** The inner loop: each category adds its count to its field value's bucket. */
  function AddCategories(totals: Totals, cats: seq<Value>, field: string): Totals
    decreases |cats|
  {
    if |cats| == 0 then totals
    else
      var c := cats[0];
      AddCategories(Upsert(totals, CategoryValue(c, field), AddTo(CategoryCount(c))), cats[1..], field)
  }

  /** One record: 1 under "undefined" when it has no categories. */
  function AddPhoto(totals: Totals, photo: Value, field: string): Totals {
    var cats := PhotoCategories(photo);
    if |cats| == 0 then Upsert(totals, Uncategorised, AddTo(One)) else AddCategories(totals, cats, field)
  }

  function AddPhotos(totals: Totals, records: seq<Value>, field: string): Totals
    decreases |records|
  {
    if |records| == 0 then totals else AddPhotos(AddPhoto(totals, records[0], field), records[1..], field)
  }

  /** `aggregateCategoryTotals`. */
  function AggregateCategoryTotals(photos: Photos, field: string): Totals {
    AddPhotos([], ValuesOf(photos), field)
  }

  /** What one record adds to the grand total. */
  function PhotoWeight(photo: Value): Number {
    var cats := PhotoCategories(photo);
    if |cats| == 0 then One else Sum(cats, CategoryCount)
  }

  /** The record names bucket `k`. */
  predicate Mentions(photo: Value, field: string, k: string) {
    var cats := PhotoCategories(photo);
    (|cats| == 0 && k == Uncategorised) || exists c :: c in cats && CategoryValue(c, field) == k
  }

  /** The invariant of the totals map: distinct keys and positive totals. */
  predicate GoodTotals(t: Totals) {
    UniqueKeys(t) && AllValues(t, PositiveTotal)
  }

  lemma PositiveIsTruthy(v: Finite)
    requires Positive(v)
    ensures Truthy(Num(v))
  {
    ValSign(v);
    ValSign(Zero);
  }

  /** Adding a positive count to a bucket. */
  lemma AddToFacts(d: Finite)
    requires Positive(d)
    ensures AddTo(d)(None) == d
    ensures forall v: Finite :: PositiveTotal(v) ==> AddTo(d)(Some(v)) == Add(v, d) && PositiveTotal(Add(v, d))
  {
    AddZero(d);
    forall v: Finite | PositiveTotal(v) ensures AddTo(d)(Some(v)) == Add(v, d) && PositiveTotal(Add(v, d)) {
      PositiveIsTruthy(v);
      AddVal(v, d);
      ValSign(Zero);
    }
  }

  lemma UpsertFacts(t: Totals, k: string, d: Finite)
    requires GoodTotals(t) && Positive(d)
    ensures GoodTotals(Upsert(t, k, AddTo(d)))
    ensures Total(Upsert(t, k, AddTo(d)), AsNumber) == Add(Total(t, AsNumber), d)
  {
    AddToFacts(d);
    UpsertKeepsUnique(t, k, AddTo(d));
    UpsertKeepsValues(t, k, AddTo(d), PositiveTotal);
    TotalUpsert(t, k, AddTo(d), AsNumber, d, PositiveTotal);
  }

  lemma {:induction false} AddCategoriesFacts(t: Totals, cats: seq<Value>, field: string)
    requires GoodTotals(t)
    ensures GoodTotals(AddCategories(t, cats, field))
    ensures Total(AddCategories(t, cats, field), AsNumber) == Add(Total(t, AsNumber), Sum(cats, CategoryCount))
    decreases |cats|
  {
    if |cats| == 0 {
      AddZero(Total(t, AsNumber));
    } else {
      var c := cats[0];
      var t' := Upsert(t, CategoryValue(c, field), AddTo(CategoryCount(c)));
      UpsertFacts(t, CategoryValue(c, field), CategoryCount(c));
      AddCategoriesFacts(t', cats[1..], field);
      AddAssociates(Total(t, AsNumber), CategoryCount(c), Sum(cats[1..], CategoryCount));
    }
  }

  lemma AddPhotoFacts(t: Totals, photo: Value, field: string)
    requires GoodTotals(t)
    ensures GoodTotals(AddPhoto(t, photo, field))
    ensures Total(AddPhoto(t, photo, field), AsNumber) == Add(Total(t, AsNumber), PhotoWeight(photo))
  {
    if |PhotoCategories(photo)| == 0 {
      ValSign(One);
      ValSign(Zero);
      UpsertFacts(t, Uncategorised, One);
    } else {
      AddCategoriesFacts(t, PhotoCategories(photo), field);
    }
  }

  lemma {:induction false} AddPhotosFacts(t: Totals, records: seq<Value>, field: string)
    requires GoodTotals(t)
    ensures GoodTotals(AddPhotos(t, records, field))
    ensures Total(AddPhotos(t, records, field), AsNumber) == Add(Total(t, AsNumber), Sum(records, PhotoWeight))
    decreases |records|
  {
    if |records| == 0 {
      AddZero(Total(t, AsNumber));
    } else {
      AddPhotoFacts(t, records[0], field);
      AddPhotosFacts(AddPhoto(t, records[0], field), records[1..], field);
      AddAssociates(Total(t, AsNumber), PhotoWeight(records[0]), Sum(records[1..], PhotoWeight));
    }
  }

  /** The buckets have distinct names and positive totals, and all of them
      together hold 1 per uncategorised record plus every category count;
      each bucket holds what the records add to its own name. */
  lemma AggregateCategoryTotalsFacts(photos: Photos, field: string)
    ensures GoodTotals(AggregateCategoryTotals(photos, field))
    ensures Total(AggregateCategoryTotals(photos, field), AsNumber) == Sum(ValuesOf(photos), PhotoWeight)
    ensures forall k :: k in KeysOf(AggregateCategoryTotals(photos, field)) ==>
              Lookup(AggregateCategoryTotals(photos, field), k).value == Sum(ValuesOf(photos), Share(field, k))
  {
    AddPhotosFacts([], ValuesOf(photos), field);
    AddZero(Sum(ValuesOf(photos), PhotoWeight));
    forall k | k in KeysOf(AggregateCategoryTotals(photos, field))
      ensures Lookup(AggregateCategoryTotals(photos, field), k).value == Sum(ValuesOf(photos), Share(field, k))
    {
      AggregateNameTotal(photos, field, k);
    }
  }

  // ---------------------------------------------------------------- one bucket

  /** What one category adds to bucket `k`. */
  function CategoryShare(field: string, k: string): Value -> Number {
    (c: Value) => if CategoryValue(c, field) == k then CategoryCount(c) else Zero
  }

  /** What one record adds to bucket `k`: 1 for "undefined" when it has no
      categories, otherwise the counts of its categories named `k`. */
  function Share(field: string, k: string): Value -> Number {
    (photo: Value) =>
      var cats := PhotoCategories(photo);
      if |cats| == 0 then (if k == Uncategorised then One else Zero) else Sum(cats, CategoryShare(field, k))
  }

  /** The total held under `k`, 0 when there is no bucket. */
  function Held(t: Totals, k: string): Number {
    var v := Lookup(t, k);
    if v.Some? then v.value else Zero
  }

  lemma HeldOf(t: Totals, k: string)
    ensures Lookup(t, k).Some? ==> Held(t, k) == Lookup(t, k).value
    ensures Lookup(t, k).None? ==> Held(t, k) == Zero
  {
  }

  /** `(totals.get(key) || 0) + d` adds `d` to `key`'s bucket and nothing
      to any other. */
  lemma UpsertHeld(t: Totals, key: string, d: Finite, k: string)
    requires GoodTotals(t) && Positive(d)
    ensures Held(Upsert(t, key, AddTo(d)), k) == Add(Held(t, k), if key == k then d else Zero)
  {
    if key == k {
      UpsertHeldSame(t, k, d);
    } else {
      UpsertOthers(t, key, AddTo(d), k);
      HeldOf(Upsert(t, key, AddTo(d)), k);
      HeldOf(t, k);
      AddZero(Held(t, k));
    }
  }

  lemma UpsertHeldSame(t: Totals, k: string, d: Finite)
    requires GoodTotals(t) && Positive(d)
    ensures Held(Upsert(t, k, AddTo(d)), k) == Add(Held(t, k), d)
  {
    var r := Upsert(t, k, AddTo(d));
    var v := Lookup(t, k);
    assert Lookup(r, k) == Some(AddTo(d)(v));
    HeldOf(r, k);
    HeldOf(t, k);
    AddToFacts(d);
    if v.Some? {
      StoredIsPositive(t, k);
    } else {
      AddZero(d);
    }
  }

  lemma StoredIsPositive(t: Totals, k: string)
    requires GoodTotals(t) && Lookup(t, k).Some?
    ensures PositiveTotal(Lookup(t, k).value)
  {
    LookupFound(t, k);
    var i :| 0 <= i < |t| && t[i] == (k, Lookup(t, k).value);
    assert PositiveTotal(t[i].1);
  }

  lemma {:induction false} AddCategoriesHeld(t: Totals, cats: seq<Value>, field: string, k: string)
    requires GoodTotals(t)
    ensures Held(AddCategories(t, cats, field), k) == Add(Held(t, k), Sum(cats, CategoryShare(field, k)))
    decreases |cats|
  {
    if |cats| == 0 {
      AddZero(Held(t, k));
    } else {
      var c := cats[0];
      var t' := Upsert(t, CategoryValue(c, field), AddTo(CategoryCount(c)));
      UpsertFacts(t, CategoryValue(c, field), CategoryCount(c));
      UpsertHeld(t, CategoryValue(c, field), CategoryCount(c), k);
      AddCategoriesHeld(t', cats[1..], field, k);
      AddAssociates(Held(t, k), CategoryShare(field, k)(c), Sum(cats[1..], CategoryShare(field, k)));
    }
  }

  lemma AddPhotoHeld(t: Totals, photo: Value, field: string, k: string)
    requires GoodTotals(t)
    ensures Held(AddPhoto(t, photo, field), k) == Add(Held(t, k), Share(field, k)(photo))
  {
    var cats := PhotoCategories(photo);
    if |cats| == 0 {
      assert AddPhoto(t, photo, field) == Upsert(t, Uncategorised, AddTo(One));
      assert Share(field, k)(photo) == if Uncategorised == k then One else Zero;
      ValSign(One);
      ValSign(Zero);
      UpsertHeld(t, Uncategorised, One, k);
    } else {
      assert AddPhoto(t, photo, field) == AddCategories(t, cats, field);
      assert Share(field, k)(photo) == Sum(cats, CategoryShare(field, k));
      AddCategoriesHeld(t, cats, field, k);
    }
  }

  lemma {:induction false} AddPhotosHeld(t: Totals, records: seq<Value>, field: string, k: string)
    requires GoodTotals(t)
    ensures Held(AddPhotos(t, records, field), k) == Add(Held(t, k), Sum(records, Share(field, k)))
    decreases |records|
  {
    if |records| == 0 {
      AddZero(Held(t, k));
    } else {
      AddPhotoHeld(t, records[0], field, k);
      AddPhotoFacts(t, records[0], field);
      AddPhotosHeld(AddPhoto(t, records[0], field), records[1..], field, k);
      AddAssociates(Held(t, k), Share(field, k)(records[0]), Sum(records[1..], Share(field, k)));
    }
  }

  /** A bucket's total is the sum, over all records, of what each adds to
      its name. */
  lemma AggregateNameTotal(photos: Photos, field: string, k: string)
    ensures k in KeysOf(AggregateCategoryTotals(photos, field)) ==>
              Lookup(AggregateCategoryTotals(photos, field), k).value == Sum(ValuesOf(photos), Share(field, k))
  {
    var recs := ValuesOf(photos);
    assert AggregateCategoryTotals(photos, field) == AddPhotos([], recs, field);
    AddPhotosHeld([], recs, field, k);
    HeldOf([], k);
    HeldOf(AggregateCategoryTotals(photos, field), k);
    AddZero(Sum(recs, Share(field, k)));
  }

  lemma {:induction false} AddCategoriesKeys(t: Totals, cats: seq<Value>, field: string, k: string)
    ensures k in KeysOf(AddCategories(t, cats, field)) <==>
              k in KeysOf(t) || exists c :: c in cats && CategoryValue(c, field) == k
    decreases |cats|
  {
    if |cats| > 0 {
      var c := cats[0];
      AddCategoriesKeys(Upsert(t, CategoryValue(c, field), AddTo(CategoryCount(c))), cats[1..], field, k);
      assert forall x :: x in cats <==> x == c || x in cats[1..];
    }
  }

  lemma {:induction false} AddPhotosKeys(t: Totals, records: seq<Value>, field: string, k: string)
    ensures k in KeysOf(AddPhotos(t, records, field)) <==>
              k in KeysOf(t) || exists p :: p in records && Mentions(p, field, k)
    decreases |records|
  {
    if |records| > 0 {
      var p := records[0];
      AddPhotosKeys(AddPhoto(t, p, field), records[1..], field, k);
      AddPhotoKeys(t, p, field, k);
      assert forall x :: x in records <==> x == p || x in records[1..];
    }
  }

  lemma AddPhotoKeys(t: Totals, photo: Value, field: string, k: string)
    ensures k in KeysOf(AddPhoto(t, photo, field)) <==> k in KeysOf(t) || Mentions(photo, field, k)
  {
    if |PhotoCategories(photo)| > 0 {
      AddCategoriesKeys(t, PhotoCategories(photo), field, k);
    }
  }

  /** There is a bucket exactly for each name some record mentions. */
  lemma AggregateKeys(photos: Photos, field: string, k: string)
    ensures k in KeysOf(AggregateCategoryTotals(photos, field)) <==>
              exists p :: p in ValuesOf(photos) && Mentions(p, field, k)
  {
    AddPhotosKeys([], ValuesOf(photos), field, k);
  }

  /** A record with no categories adds 1 to "undefined" and changes no other bucket. */
  lemma UncategorisedAddsOne(t: Totals, photo: Value, field: string, k: string)
    requires GoodTotals(t)
    requires |PhotoCategories(photo)| == 0
    ensures Lookup(AddPhoto(t, photo, field), Uncategorised).Some?
    ensures Lookup(t, Uncategorised).None? ==> Lookup(AddPhoto(t, photo, field), Uncategorised) == Some(One)
    ensures Lookup(t, Uncategorised).Some? ==>
              Lookup(AddPhoto(t, photo, field), Uncategorised) == Some(Add(Lookup(t, Uncategorised).value, One))
    ensures k != Uncategorised ==> Lookup(AddPhoto(t, photo, field), k) == Lookup(t, k)
  {
    ValSign(One);
    ValSign(Zero);
    AddToFacts(One);
    if Lookup(t, Uncategorised).Some? {
      LookupFound(t, Uncategorised);
    }
    if k != Uncategorised {
      UpsertOthers(t, Uncategorised, AddTo(One), k);
    }
  }

  // ---------------------------------------------------------------- leaderboard rows

  /** `[...totals.entries()].map(([name, count]) => ({ name, count }))`. */
  function Rows(t: Totals): (rows: seq<NamedCount>)
    ensures |rows| == |t|
    ensures forall i :: 0 <= i < |t| ==> rows[i] == NamedCount(t[i].0, t[i].1)
  {
    if |t| == 0 then [] else [NamedCount(t[0].0, t[0].1)] + Rows(t[1..])
  }

  const DefaultLimit: Number := Fin(10, 0)

  /** `topCategoryTotals`. */
  function TopCategoryTotals(photos: Photos, field: string, limit: Number): seq<NamedCount> {
    var ranked := RankRows(Rows(AggregateCategoryTotals(photos, field)));
    ranked[..SliceEnd(|ranked|, limit)]
  }

  /** `summarizePhotoCategoryTotals`. */
  function SummarizePhotoCategoryTotals(photo: Value, field: string): seq<NamedCount> {
    RankRows(Rows(AddCategories([], PhotoCategories(photo), field)))
  }

  lemma {:induction false} RowsTotal(t: Totals)
    ensures Sum(Rows(t), RowCount) == Total(t, AsNumber)
    decreases |t|
  {
    if |t| > 0 {
      RowsTotal(t[1..]);
      assert Rows(t)[1..] == Rows(t[1..]);
    }
  }

  lemma UniqueLookup(t: Totals, i: nat)
    requires UniqueKeys(t) && i < |t|
    ensures Lookup(t, t[i].0) == Some(t[i].1)
  {
    LookupFound(t, t[i].0);
  }

  /** The leaderboard: ranked by total then name, distinct names, exactly
      as many rows as the slice keeps (`limit` rows, or all of them when
      there are fewer, for a non-negative integer limit), a prefix of the
      whole ranked list, and each row a bucket with its total. */
  lemma TopCategoryTotalsFacts(photos: Photos, field: string, limit: Number)
    ensures var r, t := TopCategoryTotals(photos, field, limit), AggregateCategoryTotals(photos, field);
            && RankedByCount(r)
            && DistinctBy(r, RowName)
            && |r| == SliceEnd(|t|, limit)
            && (limit.Fin? && limit.exp == 0 && limit.mant >= 0 ==>
                  |r| == if limit.mant < |t| then limit.mant else |t|)
            && r == RankRows(Rows(t))[..|r|]
            && forall i :: 0 <= i < |r| ==> Lookup(t, r[i].name) == Some(r[i].count)
  {
    TopRowsShape(photos, field, limit);
    TopRowsAreBuckets(photos, field, limit);
  }

  lemma TopRowsShape(photos: Photos, field: string, limit: Number)
    ensures var r, t := TopCategoryTotals(photos, field, limit), AggregateCategoryTotals(photos, field);
            && RankedByCount(r)
            && DistinctBy(r, RowName)
            && |r| == SliceEnd(|t|, limit)
            && (limit.Fin? && limit.exp == 0 && limit.mant >= 0 ==>
                  |r| == if limit.mant < |t| then limit.mant else |t|)
            && r == RankRows(Rows(t))[..|r|]
  {
    var t := AggregateCategoryTotals(photos, field);
    AddPhotosFacts([], ValuesOf(photos), field);
    TopRowsRanked(t, SliceEnd(|t|, limit));
    assert TopCategoryTotals(photos, field, limit) == RankRows(Rows(t))[..SliceEnd(|t|, limit)];
    if limit.Fin? && limit.exp == 0 && limit.mant >= 0 {
      SliceEndOfNonNegative(|t|, limit.mant);
    }
  }

  /** Any prefix of the ranked rows of good totals is ranked and has
      distinct names. */
  lemma TopRowsRanked(t: Totals, n: nat)
    requires UniqueKeys(t) && n <= |t|
    ensures |RankRows(Rows(t))| == |t|
    ensures var r := RankRows(Rows(t))[..n]; RankedByCount(r) && DistinctBy(r, RowName)
  {
    var ranked := RankRows(Rows(t));
    RankRowsFacts(Rows(t));
    assert |ranked| == |Rows(t)| by {
      assert |multiset(ranked)| == |multiset(Rows(t))|;
    }
  }

  lemma TopRowsAreBuckets(photos: Photos, field: string, limit: Number)
    ensures var r, t := TopCategoryTotals(photos, field, limit), AggregateCategoryTotals(photos, field);
            forall i :: 0 <= i < |r| ==> Lookup(t, r[i].name) == Some(r[i].count)
  {
    var t := AggregateCategoryTotals(photos, field);
    var r := TopCategoryTotals(photos, field, limit);
    AggregateCategoryTotalsFacts(photos, field);
    RankRowsFacts(Rows(t));
    forall i | 0 <= i < |r| ensures Lookup(t, r[i].name) == Some(r[i].count) {
      assert r[i] in multiset(Rows(t));
      var j :| 0 <= j < |t| && Rows(t)[j] == r[i];
      UniqueLookup(t, j);
    }
  }

  /** Some row of `r` is named `k`. */
  predicate HasRow(r: seq<NamedCount>, k: string) {
    exists i :: 0 <= i < |r| && r[i].name == k
  }

  /** Some category in `cats` has value `k` in `field`. */
  predicate CarriesName(cats: seq<Value>, field: string, k: string) {
    exists c :: c in cats && CategoryValue(c, field) == k
  }

  /** One photo's rows: ranked, one per name, together holding the photo's
      whole category count; each row holds the counts of exactly the
      categories carrying its name, and a name has a row exactly when some
      category of the photo carries it (so an uncategorised photo has none). */
  lemma SummarizePhotoCategoryTotalsFacts(photo: Value, field: string)
    ensures var r := SummarizePhotoCategoryTotals(photo, field);
            && RankedByCount(r)
            && DistinctBy(r, RowName)
            && Sum(r, RowCount) == Sum(PhotoCategories(photo), CategoryCount)
            && (forall i :: 0 <= i < |r| ==>
                  r[i].count == Sum(PhotoCategories(photo), CategoryShare(field, r[i].name)))
            && (forall k :: HasRow(r, k) <==> CarriesName(PhotoCategories(photo), field, k))
  {
    var cats := PhotoCategories(photo);
    var t := AddCategories([], cats, field);
    var r := SummarizePhotoCategoryTotals(photo, field);
    AddCategoriesFacts([], cats, field);
    AddZero(Sum(cats, CategoryCount));
    RankRowsFacts(Rows(t));
    SumPermutation(RankRows(Rows(t)), Rows(t), RowCount);
    RowsTotal(t);
    forall i | 0 <= i < |r|
      ensures r[i].count == Sum(cats, CategoryShare(field, r[i].name))
    {
      SummaryRowCount(photo, field, i);
    }
    forall k ensures HasRow(r, k) <==> CarriesName(cats, field, k) {
      SummaryRowName(photo, field, k);
    }
  }

  /** Row `i` of one photo's summary holds its name's share of the categories. */
  lemma SummaryRowCount(photo: Value, field: string, i: nat)
    requires i < |SummarizePhotoCategoryTotals(photo, field)|
    ensures var r := SummarizePhotoCategoryTotals(photo, field);
            r[i].count == Sum(PhotoCategories(photo), CategoryShare(field, r[i].name))
  {
    var cats := PhotoCategories(photo);
    var t := AddCategories([], cats, field);
    AddCategoriesFacts([], cats, field);
    RankedRowIsStored(t, i);
    CategoriesHeld(cats, field, RankRows(Rows(t))[i].name);
  }

  /** A name has a row in one photo's summary exactly when some category of
      the photo carries it. */
  lemma SummaryRowName(photo: Value, field: string, k: string)
    ensures HasRow(SummarizePhotoCategoryTotals(photo, field), k) <==>
              CarriesName(PhotoCategories(photo), field, k)
  {
    var cats := PhotoCategories(photo);
    var t := AddCategories([], cats, field);
    var empty: Totals := [];
    AddCategoriesKeys(empty, cats, field, k);
    assert k !in KeysOf(empty);
    RankedRowNames(t, k);
  }

  /** From nothing, a name's total is its share of the categories. */
  lemma CategoriesHeld(cats: seq<Value>, field: string, k: string)
    ensures var t := AddCategories([], cats, field);
            Lookup(t, k).Some? ==> Lookup(t, k).value == Sum(cats, CategoryShare(field, k))
  {
    var t := AddCategories([], cats, field);
    AddCategoriesHeld([], cats, field, k);
    HeldOf([], k);
    HeldOf(t, k);
    AddZero(Sum(cats, CategoryShare(field, k)));
  }

  /** Each ranked row is a stored entry of the table. */
  lemma RankedRowIsStored(t: Totals, i: nat)
    requires UniqueKeys(t) && i < |RankRows(Rows(t))|
    ensures var r := RankRows(Rows(t)); Lookup(t, r[i].name) == Some(r[i].count)
  {
    var r := RankRows(Rows(t));
    RankRowsFacts(Rows(t));
    assert r[i] in multiset(Rows(t));
    var j :| 0 <= j < |t| && Rows(t)[j] == r[i];
    UniqueLookup(t, j);
  }

  /** The ranked rows are named by exactly the table's keys. */
  lemma RankedRowNames(t: Totals, k: string)
    ensures HasRow(RankRows(Rows(t)), k) <==> k in KeysOf(t)
  {
    var r := RankRows(Rows(t));
    if HasRow(r, k) {
      var i :| 0 <= i < |r| && r[i].name == k;
      RankedRowNamed(t, i);
    }
    if k in KeysOf(t) {
      var j :| 0 <= j < |t| && KeysOf(t)[j] == k;
      KeyHasRankedRow(t, j);
    }
  }

  lemma RankedRowNamed(t: Totals, i: nat)
    requires i < |RankRows(Rows(t))|
    ensures RankRows(Rows(t))[i].name in KeysOf(t)
  {
    var r := RankRows(Rows(t));
    RankRowsFacts(Rows(t));
    assert r[i] in multiset(Rows(t));
    var j :| 0 <= j < |t| && Rows(t)[j] == r[i];
    assert KeysOf(t)[j] == r[i].name;
  }

  lemma KeyHasRankedRow(t: Totals, j: nat)
    requires j < |t|
    ensures HasRow(RankRows(Rows(t)), t[j].0)
  {
    var r := RankRows(Rows(t));
    RankRowsFacts(Rows(t));
    assert Rows(t)[j] in multiset(r);
    var i :| 0 <= i < |r| && r[i] == Rows(t)[j];
    assert r[i].name == t[j].0;
  }
}
