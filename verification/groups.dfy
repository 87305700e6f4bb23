/** JavaScript `Map`s used for grouping: an insertion-ordered association list
    where `set` on an existing key updates it in place and `set` on a new key
    appends it. */
module Groups {
  import opened Base
  import opened Js
  import opened Sums
  import opened Sorting

  type Table<K, V> = seq<(K, V)>

  /** `map.get(k)`, `None` standing for `undefined`. */
  function Lookup<K(==), V>(t: Table<K, V>, k: K): (r: Option<V>)
    ensures r.None? <==> k !in KeysOf(t)
  {
    if |t| == 0 then None
    else if t[0].0 == k then Some(t[0].1)
    else Lookup(t[1..], k)
  }

  /** `[...map.keys()]`. */
  function KeysOf<K, V>(t: Table<K, V>): (ks: seq<K>)
    ensures |ks| == |t|
    ensures forall i :: 0 <= i < |t| ==> ks[i] == t[i].0
  {
    if |t| == 0 then [] else [t[0].0] + KeysOf(t[1..])
  }

  /** `[...map.values()]`. */
  function ValuesOf<K, V>(t: Table<K, V>): (vs: seq<V>)
    ensures |vs| == |t|
    ensures forall i :: 0 <= i < |t| ==> vs[i] == t[i].1
  {
    if |t| == 0 then [] else [t[0].1] + ValuesOf(t[1..])
  }

  predicate UniqueKeys<K(==), V>(t: Table<K, V>) {
    forall i, j :: 0 <= i < j < |t| ==> t[i].0 != t[j].0
  }

  /** `map.set(k, f(map.get(k)))`. */
  function Upsert<K(==), V>(t: Table<K, V>, k: K, f: Option<V> -> V): (r: Table<K, V>)
    ensures Lookup(r, k) == Some(f(Lookup(t, k)))
    ensures KeysOf(r) == if k in KeysOf(t) then KeysOf(t) else KeysOf(t) + [k]
  {
    if |t| == 0 then [(k, f(None))]
    else if t[0].0 == k then [(k, f(Some(t[0].1)))] + t[1..]
    else
      var rest := Upsert(t[1..], k, f);
      assert KeysOf(t) == [t[0].0] + KeysOf(t[1..]);
      [t[0]] + rest
  }

  /** Updating one key leaves every other key's value alone. */
  lemma {:induction false} UpsertOthers<K, V>(t: Table<K, V>, k: K, f: Option<V> -> V, j: K)
    requires j != k
    ensures Lookup(Upsert(t, k, f), j) == Lookup(t, j)
    decreases |t|
  {
    if |t| > 0 && t[0].0 != k {
      UpsertOthers(t[1..], k, f, j);
    }
  }

  /** Updating keeps the keys distinct. */
  lemma UpsertKeepsUnique<K, V>(t: Table<K, V>, k: K, f: Option<V> -> V)
    requires UniqueKeys(t)
    ensures UniqueKeys(Upsert(t, k, f))
  {
    var r := Upsert(t, k, f);
    var ks, rs := KeysOf(t), KeysOf(r);
    if k in ks {
      assert rs == ks;
    } else {
      assert rs == ks + [k];
      forall i, j | 0 <= i < j < |r| ensures r[i].0 != r[j].0 {
        assert r[i].0 == rs[i] && r[j].0 == rs[j];
        if j < |t| {
          assert rs[i] == t[i].0 && rs[j] == t[j].0;
        } else {
          assert rs[i] == ks[i];
        }
      }
    }
  }

  /** Σ w(v) over the values. */
  function Total<K, V>(t: Table<K, V>, w: V -> Number): Number {
    if |t| == 0 then Zero else Add(w(t[0].1), Total(t[1..], w))
  }

  /** If the update adds `d` to the measured value (and a new entry starts at
      `d`), the total grows by exactly `d`. `inv` describes the values the
      table can hold, for updates such as `(map.get(k) || 0) + d` that only
      add `d` to values of a known shape. */
  lemma {:induction false} TotalUpsert<K, V>(t: Table<K, V>, k: K, f: Option<V> -> V, w: V -> Number,
                                                 d: Number, inv: V -> bool)
    requires w(f(None)) == d
    requires forall v :: inv(v) ==> w(f(Some(v))) == Add(w(v), d)
    requires forall i :: 0 <= i < |t| ==> inv(t[i].1)
    ensures Total(Upsert(t, k, f), w) == Add(Total(t, w), d)
    decreases |t|
  {
    if |t| == 0 {
      AddZero(d);
    } else if t[0].0 == k {
      var v, rest := t[0].1, Total(t[1..], w);
      AddAssociates(w(v), d, rest);
      AddCommutes(d, rest);
      AddAssociates(w(v), rest, d);
    } else {
      TotalUpsert(t[1..], k, f, w, d, inv);
      AddAssociates(w(t[0].1), Total(t[1..], w), d);
    }
  }

  /** Every value in the table satisfies `inv`. */
  predicate AllValues<K, V>(t: Table<K, V>, inv: V -> bool) {
    forall i :: 0 <= i < |t| ==> inv(t[i].1)
  }

  /** An update that maps good values to good values keeps the table good. */
  lemma {:induction false} UpsertKeepsValues<K, V>(t: Table<K, V>, k: K, f: Option<V> -> V, inv: V -> bool)
    requires AllValues(t, inv)
    requires inv(f(None)) && forall v :: inv(v) ==> inv(f(Some(v)))
    ensures AllValues(Upsert(t, k, f), inv)
    decreases |t|
  {
    if |t| > 0 && t[0].0 != k {
      UpsertKeepsValues(t[1..], k, f, inv);
    }
  }

  /** Σ w(v) over the values, for a natural-number measure such as a count. */
  function NatTotal<K, V>(t: Table<K, V>, w: V -> nat): nat {
    if |t| == 0 then 0 else w(t[0].1) + NatTotal(t[1..], w)
  }

  /** An update that adds `d` to the measured value (a new entry starting at
      `d`) adds `d` to the total. */
  lemma {:induction false} NatTotalUpsert<K, V>(t: Table<K, V>, k: K, f: Option<V> -> V, w: V -> nat, d: nat)
    requires w(f(None)) == d
    requires forall v :: w(f(Some(v))) == w(v) + d
    ensures NatTotal(Upsert(t, k, f), w) == NatTotal(t, w) + d
    decreases |t|
  {
    if |t| > 0 && t[0].0 != k {
      NatTotalUpsert(t[1..], k, f, w, d);
    }
  }

  /** Every value records the key it is stored under. */
  ghost predicate KeyedBy<K, V>(t: Table<K, V>, key: V -> K) {
    forall i :: 0 <= i < |t| ==> key(t[i].1) == t[i].0
  }

  lemma {:induction false} UpsertKeepsKeyed<K, V>(t: Table<K, V>, k: K, f: Option<V> -> V, key: V -> K)
    requires KeyedBy(t, key)
    requires key(f(None)) == k && forall v :: key(v) == k ==> key(f(Some(v))) == k
    ensures KeyedBy(Upsert(t, k, f), key)
    decreases |t|
  {
    if |t| > 0 && t[0].0 != k {
      UpsertKeepsKeyed(t[1..], k, f, key);
    }
  }

  lemma {:induction false} NatTotalOfValues<K, V>(t: Table<K, V>, w: V -> nat)
    ensures NatSum(ValuesOf(t), w) == NatTotal(t, w)
    decreases |t|
  {
    if |t| > 0 {
      NatTotalOfValues(t[1..], w);
      assert ValuesOf(t)[1..] == ValuesOf(t[1..]);
    }
  }

  lemma {:induction false} TotalOfValues<K, V>(t: Table<K, V>, w: V -> Number)
    ensures Sum(ValuesOf(t), w) == Total(t, w)
    decreases |t|
  {
    if |t| > 0 {
      TotalOfValues(t[1..], w);
      assert ValuesOf(t)[1..] == ValuesOf(t[1..]);
    }
  }

  /** Values stored under distinct keys they record are distinct by key. */
  lemma KeyedValuesDistinct<K, V>(t: Table<K, V>, key: V -> K)
    requires UniqueKeys(t) && KeyedBy(t, key)
    ensures DistinctBy(ValuesOf(t), key)
  {
  }

  lemma KeysOfAppend<K, V>(t: Table<K, V>, entry: (K, V))
    ensures KeysOf(t + [entry]) == KeysOf(t) + [entry.0]
  {
    var a, b := KeysOf(t + [entry]), KeysOf(t) + [entry.0];
    assert |a| == |b|;
    forall i | 0 <= i < |a| ensures a[i] == b[i] {
      assert (t + [entry])[i] == if i < |t| then t[i] else entry;
    }
  }

  lemma ValuesOfAppend<K, V>(t: Table<K, V>, entry: (K, V))
    ensures ValuesOf(t + [entry]) == ValuesOf(t) + [entry.1]
  {
    var a, b := ValuesOf(t + [entry]), ValuesOf(t) + [entry.1];
    assert |a| == |b|;
    forall i | 0 <= i < |a| ensures a[i] == b[i] {
      assert (t + [entry])[i] == if i < |t| then t[i] else entry;
    }
  }

  /** A value found under `k` is stored in an entry with that key. */
  lemma {:induction false} LookupFound<K, V>(t: Table<K, V>, k: K)
    requires Lookup(t, k).Some?
    ensures exists i :: 0 <= i < |t| && t[i] == (k, Lookup(t, k).value)
    decreases |t|
  {
    if t[0].0 != k {
      LookupFound(t[1..], k);
      var i :| 0 <= i < |t[1..]| && t[1..][i] == (k, Lookup(t, k).value);
      assert t[i + 1] == t[1..][i];
    }
  }

  /** A table built with distinct keys holds each entry under its own key. */
  lemma EntryIsLookup<K, V>(t: Table<K, V>, m: int)
    requires UniqueKeys(t) && 0 <= m < |t|
    ensures Lookup(t, t[m].0) == Some(t[m].1)
  {
    LookupFound(t, t[m].0);
  }
}
