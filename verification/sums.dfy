/** Sums, counts and filters over sequences: the reference definitions the
    source's accumulation loops (`total += f(x)`, `count++`) are compared with. */
module Sums {
  import opened Js

  /** `s.filter(p)`: the in-order subsequence of elements satisfying `p`. */
  function Filter<T>(s: seq<T>, p: T -> bool): (r: seq<T>)
    ensures |r| <= |s|
    ensures forall i :: 0 <= i < |r| ==> p(r[i])
  {
    if |s| == 0 then []
    else if p(s[0]) then [s[0]] + Filter(s[1..], p)
    else Filter(s[1..], p)
  }

  /** An element survives the filter iff it was there and satisfies `p`. */
  lemma {:induction false} FilterMembers<T>(s: seq<T>, p: T -> bool, x: T)
    ensures x in Filter(s, p) <==> x in s && p(x)
    decreases |s|
  {
    if |s| > 0 {
      FilterMembers(s[1..], p, x);
      assert x in s <==> x == s[0] || x in s[1..];
    }
  }

  lemma {:induction false} FilterAppend<T>(a: seq<T>, b: seq<T>, p: T -> bool)
    ensures Filter(a + b, p) == Filter(a, p) + Filter(b, p)
    decreases |a|
  {
    if |a| > 0 {
      FilterAppend(a[1..], b, p);
      assert (a + b)[1..] == a[1..] + b;
    } else {
      assert a + b == b;
    }
  }

  /** Filtering with a predicate that holds everywhere keeps everything. */
  lemma {:induction false} FilterAll<T>(s: seq<T>, p: T -> bool)
    requires forall i :: 0 <= i < |s| ==> p(s[i])
    ensures Filter(s, p) == s
    decreases |s|
  {
    if |s| > 0 {
      FilterAll(s[1..], p);
    }
  }

  /** Σ f(x) over `s`, starting from 0. */
  function Sum<T>(s: seq<T>, f: T -> Number): Number {
    if |s| == 0 then Zero else Add(f(s[0]), Sum(s[1..], f))
  }

  lemma {:induction false} SumAppend<T>(a: seq<T>, b: seq<T>, f: T -> Number)
    ensures Sum(a + b, f) == Add(Sum(a, f), Sum(b, f))
    decreases |a|
  {
    if |a| == 0 {
      assert a + b == b;
      AddZero(Sum(b, f));
    } else {
      SumAppend(a[1..], b, f);
      assert (a + b)[1..] == a[1..] + b;
      AddAssociates(f(a[0]), Sum(a[1..], f), Sum(b, f));
    }
  }

  /** Accumulating left to right (`total += f(x)`) gives the same sum. */
  lemma SumSnoc<T>(s: seq<T>, x: T, f: T -> Number)
    ensures Sum(s + [x], f) == Add(Sum(s, f), f(x))
  {
    SumAppend(s, [x], f);
    assert Sum([x], f) == Add(f(x), Zero);
    AddZero(f(x));
  }

  /** Splitting a sequence by a predicate and its negation splits its sum. */
  lemma {:induction false} SumSplit<T>(s: seq<T>, f: T -> Number, p: T -> bool, q: T -> bool)
    requires forall x :: q(x) == !p(x)
    ensures Add(Sum(Filter(s, p), f), Sum(Filter(s, q), f)) == Sum(s, f)
    decreases |s|
  {
    if |s| == 0 {
      AddZero(Zero);
    } else {
      SumSplit(s[1..], f, p, q);
      var a, b := Sum(Filter(s[1..], p), f), Sum(Filter(s[1..], q), f);
      if p(s[0]) {
        AddAssociates(f(s[0]), a, b);
      } else {
        AddAssociates(a, f(s[0]), b);
        AddCommutes(a, f(s[0]));
        AddAssociates(f(s[0]), a, b);
      }
    }
  }

  /** The number of elements satisfying `p`. */
  function Count<T>(s: seq<T>, p: T -> bool): (n: nat)
    ensures n <= |s|
  {
    if |s| == 0 then 0 else (if p(s[0]) then 1 else 0) + Count(s[1..], p)
  }

  /** Nothing satisfies `p`, so nothing is counted. */
  lemma {:induction false} CountNone<T>(s: seq<T>, p: T -> bool)
    requires forall i :: 0 <= i < |s| ==> !p(s[i])
    ensures Count(s, p) == 0
    decreases |s|
  {
    if |s| > 0 {
      CountNone(s[1..], p);
    }
  }

  lemma {:induction false} CountIsFilterLength<T>(s: seq<T>, p: T -> bool)
    ensures Count(s, p) == |Filter(s, p)|
    decreases |s|
  {
    if |s| > 0 {
      CountIsFilterLength(s[1..], p);
    }
  }

  /** Every element satisfies exactly one of `p` and its negation. */
  lemma {:induction false} CountSplit<T>(s: seq<T>, p: T -> bool, q: T -> bool)
    requires forall x :: q(x) == !p(x)
    ensures Count(s, p) + Count(s, q) == |s|
    decreases |s|
  {
    if |s| > 0 {
      CountSplit(s[1..], p, q);
    }
  }

  lemma {:induction false} CountSnoc<T>(s: seq<T>, x: T, p: T -> bool)
    ensures Count(s + [x], p) == Count(s, p) + (if p(x) then 1 else 0)
    decreases |s|
  {
    if |s| == 0 {
      assert (s + [x])[1..] == [];
    } else {
      CountSnoc(s[1..], x, p);
      assert (s + [x])[1..] == s[1..] + [x];
    }
  }

  /** A count, as the number JavaScript's `count++` loop produces. */
  function NatNumber(n: nat): Number {
    Fin(n, 0)
  }

  /** Where the first element of `a` sits in a permutation `b` of it: `b`
      is that element with the rest of `a`, reordered, around it. */
  lemma PickOut<T>(a: seq<T>, b: seq<T>) returns (before: seq<T>, after: seq<T>)
    requires |a| > 0 && multiset(a) == multiset(b)
    ensures b == before + [a[0]] + after
    ensures multiset(a[1..]) == multiset(before + after)
  {
    var x := a[0];
    assert x in multiset(b);
    var j :| 0 <= j < |b| && b[j] == x;
    before, after := b[..j], b[j + 1..];
    assert b == before + [x] + after;
    assert a == [x] + a[1..];
    calc {
      multiset(a[1..]);
      multiset(a) - multiset{x};
      multiset(b) - multiset{x};
      multiset(before) + multiset(after);
      multiset(before + after);
    }
  }

  /** Reordering the elements does not change their sum. */
  lemma {:induction false} SumPermutation<T>(a: seq<T>, b: seq<T>, f: T -> Number)
    requires multiset(a) == multiset(b)
    ensures Sum(a, f) == Sum(b, f)
    decreases |a|
  {
    assert |a| == |multiset(a)| == |multiset(b)| == |b|;
    if |a| > 0 {
      var x := a[0];
      var before, after := PickOut(a, b);
      SumPermutation(a[1..], before + after, f);
      assert Sum(a, f) == Add(f(x), Sum(before + after, f));
      SumAppend(before + [x], after, f);
      SumSnoc(before, x, f);
      SumAppend(before, after, f);
      var p, q := Sum(before, f), Sum(after, f);
      AddAssociates(p, f(x), q);
      AddCommutes(p, f(x));
      AddAssociates(f(x), p, q);
    }
  }

  /** Σ f(x) over `s` for a natural-number measure. */
  function NatSum<T>(s: seq<T>, f: T -> nat): nat {
    if |s| == 0 then 0 else f(s[0]) + NatSum(s[1..], f)
  }

  lemma {:induction false} NatSumAppend<T>(a: seq<T>, b: seq<T>, f: T -> nat)
    ensures NatSum(a + b, f) == NatSum(a, f) + NatSum(b, f)
    decreases |a|
  {
    if |a| == 0 {
      assert a + b == b;
    } else {
      NatSumAppend(a[1..], b, f);
      assert (a + b)[1..] == a[1..] + b;
    }
  }

  lemma {:induction false} NatSumPermutation<T>(a: seq<T>, b: seq<T>, f: T -> nat)
    requires multiset(a) == multiset(b)
    ensures NatSum(a, f) == NatSum(b, f)
    decreases |a|
  {
    assert |a| == |multiset(a)| == |multiset(b)| == |b|;
    if |a| > 0 {
      var before, after := PickOut(a, b);
      NatSumPermutation(a[1..], before + after, f);
      NatSumAppend(before + [a[0]], after, f);
      NatSumAppend(before, [a[0]], f);
      NatSumAppend(before, after, f);
    }
  }
}
