/** The leaderboard order used throughout the dashboard: larger counts first,
    equal counts by name, as in
    `(a, b) => b.count - a.count || a.name.localeCompare(b.name)`. */
module Ranking {
  import opened Text
  import opened Js
  import opened Sorting

  /** `cmp(a, b) <= 0` for integer counts. */
  predicate IntRankLe(ca: int, na: string, cb: int, nb: string) {
    var d := cb - ca;
    if d != 0 then d < 0 else LexLe(na, nb)
  }

  /** `cmp(a, b) <= 0` for number counts: a zero or `NaN` difference falls
      through to the name comparison. */
  predicate NumRankLe(ca: Number, na: string, cb: Number, nb: string) {
    var d := Sub(cb, ca);
    if Truthy(Num(d)) then Le(d, Zero) else LexLe(na, nb)
  }

  /** On finite counts the comparator means: a larger count, or the same
      count and a name that does not come later. */
  lemma NumRankLeFinite(ca: Number, na: string, cb: Number, nb: string)
    requires ca.Fin? && cb.Fin?
    ensures NumRankLe(ca, na, cb, nb) <==> Lt(cb, ca) || (NumEq(ca, cb) && LexLe(na, nb))
  {
    SubSign(ca, cb);
    ValSign(Sub(cb, ca));
  }

  /** The comparator on elements ranked by `count` and `name`. */
  function ByIntRank<T>(count: T -> int, name: T -> string): (T, T) -> bool {
    (a: T, b: T) => IntRankLe(count(a), name(a), count(b), name(b))
  }

  function ByNumRank<T>(count: T -> Number, name: T -> string): (T, T) -> bool {
    (a: T, b: T) => NumRankLe(count(a), name(a), count(b), name(b))
  }

  lemma IntRankPreorder<T(!new)>(count: T -> int, name: T -> string)
    ensures TotalPreorder(ByIntRank(count, name))
  {
    var le := ByIntRank(count, name);
    forall a, b ensures le(a, b) || le(b, a) {
      LexLeTotalOrder(name(a), name(b), name(b));
    }
    forall a, b, c | le(a, b) && le(b, c) ensures le(a, c) {
      LexLeTotalOrder(name(a), name(b), name(c));
    }
  }

  /** With finite counts the number comparator is a total preorder too. */
  lemma NumRankPreorder<T(!new)>(count: T -> Number, name: T -> string)
    requires forall a :: count(a).Fin?
    ensures TotalPreorder(ByNumRank(count, name))
  {
    var le := ByNumRank(count, name);
    forall a, b ensures le(a, b) || le(b, a) {
      NumRankLeFinite(count(a), name(a), count(b), name(b));
      NumRankLeFinite(count(b), name(b), count(a), name(a));
      LexLeTotalOrder(name(a), name(b), name(b));
    }
    forall a, b, c | le(a, b) && le(b, c) ensures le(a, c) {
      NumRankLeFinite(count(a), name(a), count(b), name(b));
      NumRankLeFinite(count(b), name(b), count(c), name(c));
      NumRankLeFinite(count(a), name(a), count(c), name(c));
      LexLeTotalOrder(name(a), name(b), name(c));
    }
  }

  /** A leaderboard row `{ name, count }`. */
  datatype NamedCount = NamedCount(name: string, count: Finite)

  function RowCount(r: NamedCount): Number {
    r.count
  }

  function RowName(r: NamedCount): string {
    r.name
  }

  /** Larger counts first, equal counts by name. */
  function RankRows(rows: seq<NamedCount>): seq<NamedCount> {
    SortBy(rows, ByNumRank(RowCount, RowName))
  }

  /** Every earlier row has a larger count, or the same count and a name
      that does not come later. */
  predicate RankedByCount(rows: seq<NamedCount>) {
    forall i, j :: 0 <= i < j < |rows| ==>
      Val(rows[j].count) < Val(rows[i].count)
      || (Val(rows[j].count) == Val(rows[i].count) && LexLe(rows[i].name, rows[j].name))
  }

  /** Ranking reorders the rows into leaderboard order, keeping names distinct. */
  lemma RankRowsFacts(rows: seq<NamedCount>)
    ensures multiset(RankRows(rows)) == multiset(rows)
    ensures RankedByCount(RankRows(rows))
    ensures DistinctBy(rows, RowName) ==> DistinctBy(RankRows(rows), RowName)
  {
    var le := ByNumRank(RowCount, RowName);
    var r := RankRows(rows);
    NumRankPreorder(RowCount, RowName);
    SortBySorted(rows, le);
    forall i, j | 0 <= i < j < |r|
      ensures Val(r[j].count) < Val(r[i].count)
              || (Val(r[j].count) == Val(r[i].count) && LexLe(r[i].name, r[j].name))
    {
      SortedPairs(r, le, i, j);
      NumRankLeFinite(r[i].count, r[i].name, r[j].count, r[j].name);
    }
    if DistinctBy(rows, RowName) {
      SortByDistinct(rows, le, RowName);
    }
  }
}
