/** Sums over sequences: SQL's `SUM` and LINQ's `Sum`. */
module Sums {
  import opened Ordering

  /** The sum of `f` over the elements of `s`. */
  function SumBy<T>(s: seq<T>, f: T -> int): int
    decreases |s|
  {
    if s == [] then 0 else SumBy(s[..|s| - 1], f) + f(s[|s| - 1])
  }

  lemma {:induction false} SumByAppend<T>(a: seq<T>, b: seq<T>, f: T -> int)
    ensures SumBy(a + b, f) == SumBy(a, f) + SumBy(b, f)
    decreases |b|
  {
    if b == [] {
      assert a + b == a;
    } else {
      var n := |b| - 1;
      assert (a + b)[..|a + b| - 1] == a + b[..n];
      SumByAppend(a, b[..n], f);
    }
  }

  /** Removing the element at `k` takes its value off the sum. */
  lemma SumByRemove<T>(s: seq<T>, k: nat, f: T -> int)
    requires k < |s|
    ensures SumBy(s, f) == SumBy(s[..k] + s[k + 1..], f) + f(s[k])
  {
    var left, mid, right := s[..k], [s[k]], s[k + 1..];
    assert s == left + (mid + right);
    SumByAppend(left, mid + right, f);
    SumByAppend(mid, right, f);
    SumByAppend(left, right, f);
    assert mid[..0] == [];
    assert SumBy(mid, f) == f(s[k]);
  }

  /** A sum does not depend on the order of its terms. */
  lemma {:induction false} SumByPermutation<T>(a: seq<T>, b: seq<T>, f: T -> int)
    requires multiset(a) == multiset(b)
    ensures SumBy(a, f) == SumBy(b, f)
    decreases |a|
  {
    if a == [] {
      assert |b| == |multiset(b)| == 0;
    } else {
      var n := |a| - 1;
      var x := a[n];
      assert a == a[..n] + [x];
      assert x in multiset(b);
      var k :| 0 <= k < |b| && b[k] == x;
      var rest := b[..k] + b[k + 1..];
      assert b == b[..k] + [x] + b[k + 1..];
      assert multiset(b) == multiset(rest) + multiset{x};
      assert multiset(a) == multiset(a[..n]) + multiset{x};
      assert multiset(a[..n]) == multiset(a) - multiset{x};
      assert multiset(rest) == multiset(b) - multiset{x};
      SumByPermutation(a[..n], rest, f);
      SumByRemove(b, k, f);
    }
  }

  /** `f` where `p` holds and zero elsewhere. */
  function Masked<T>(p: T -> bool, f: T -> int): T -> int {
    x => if p(x) then f(x) else 0
  }

  /** Summing over a selection is summing the masked terms over everything. */
  lemma {:induction false} SumByFilter<T(!new)>(s: seq<T>, p: T -> bool, f: T -> int)
    ensures SumBy(Filter(s, p), f) == SumBy(s, Masked(p, f))
    decreases |s|
  {
    if s != [] {
      var n := |s| - 1;
      SumByFilter(s[..n], p, f);
      SumByAppend(Filter(s[..n], p), if p(s[n]) then [s[n]] else [], f);
      assert SumBy([s[n]], f) == f(s[n]) by {
        assert [s[n]][..0] == [];
      }
    }
  }

  /** Terms that agree on every element give the same sum. */
  lemma {:induction false} SumByCongruent<T>(s: seq<T>, f: T -> int, g: T -> int)
    requires forall i :: 0 <= i < |s| ==> f(s[i]) == g(s[i])
    ensures SumBy(s, f) == SumBy(s, g)
    decreases |s|
  {
    if s != [] {
      SumByCongruent(s[..|s| - 1], f, g);
    }
  }

  /** Non-negative terms give a non-negative sum. */
  lemma {:induction false} SumByNonNegative<T>(s: seq<T>, f: T -> int)
    requires forall i :: 0 <= i < |s| ==> f(s[i]) >= 0
    ensures SumBy(s, f) >= 0
    decreases |s|
  {
    if s != [] {
      SumByNonNegative(s[..|s| - 1], f);
    }
  }

  /** Summing terms that add up pointwise adds the sums. */
  lemma {:induction false} SumBySplit<T>(s: seq<T>, f: T -> int, g: T -> int, h: T -> int)
    requires forall i :: 0 <= i < |s| ==> h(s[i]) == f(s[i]) + g(s[i])
    ensures SumBy(s, h) == SumBy(s, f) + SumBy(s, g)
    decreases |s|
  {
    if s != [] {
      SumBySplit(s[..|s| - 1], f, g, h);
    }
  }

  /** Replacing one element changes the sum by the difference of its terms. */
  lemma SumByUpdate<T>(s: seq<T>, k: nat, x: T, f: T -> int)
    requires k < |s|
    ensures SumBy(s[k := x], f) == SumBy(s, f) - f(s[k]) + f(x)
  {
    var t := s[k := x];
    SumByRemove(s, k, f);
    SumByRemove(t, k, f);
    assert t[..k] + t[k + 1..] == s[..k] + s[k + 1..];
  }
}
