/**
 * Row selection and ordering: the `WHERE`/`ORDER BY ... DESC` clauses of the
 * ledger's queries and LINQ's `Where`/`OrderByDescending`, over sequences.
 */
module Ordering {

  /** The elements of `s` that satisfy `p`, in their original order. */
  function Filter<T(!new)>(s: seq<T>, p: T -> bool): (r: seq<T>)
    ensures |r| <= |s|
    ensures forall x :: x in r <==> x in s && p(x)
    decreases |s|
  {
    if s == [] then []
    else
      assert s == s[..|s| - 1] + [s[|s| - 1]];
      Filter(s[..|s| - 1], p) + (if p(s[|s| - 1]) then [s[|s| - 1]] else [])
  }

  /** `s` is ordered by `key`, largest first. */
  ghost predicate SortedDesc<T>(s: seq<T>, key: T -> int) {
    forall i, j :: 0 <= i < j < |s| ==> key(s[i]) >= key(s[j])
  }

  /**
   * Inserts `x` after every element whose key is at least `key(x)`, so that
   * elements with equal keys keep their order of insertion.
   */
  function InsertDesc<T(!new)>(s: seq<T>, x: T, key: T -> int): (r: seq<T>)
    ensures multiset(r) == multiset(s) + multiset{x}
    ensures |r| == |s| + 1
    decreases |s|
  {
    if s == [] || key(s[0]) < key(x) then [x] + s
    else
      assert s == [s[0]] + s[1..];
      [s[0]] + InsertDesc(s[1..], x, key)
  }

  /** Insertion into an ordered sequence keeps it ordered. */
  lemma {:induction false} InsertKeepsOrder<T(!new)>(s: seq<T>, x: T, key: T -> int)
    requires SortedDesc(s, key)
    ensures SortedDesc(InsertDesc(s, x, key), key)
    decreases |s|
  {
    var r := InsertDesc(s, x, key);
    if s == [] || key(s[0]) < key(x) {
      forall i, j | 0 <= i < j < |r| ensures key(r[i]) >= key(r[j]) {
        if i == 0 {
          assert r[j] == s[j - 1];
          if j > 1 { assert key(s[0]) >= key(s[j - 1]); }
        } else {
          assert r[i] == s[i - 1] && r[j] == s[j - 1];
        }
      }
    } else {
      var rest := InsertDesc(s[1..], x, key);
      InsertKeepsOrder(s[1..], x, key);
      assert r == [s[0]] + rest;
      forall i, j | 0 <= i < j < |r| ensures key(r[i]) >= key(r[j]) {
        if i == 0 {
          var y := rest[j - 1];
          assert y in multiset(rest);
          if y != x {
            assert y in multiset(s[1..]);
            var k :| 0 <= k < |s| - 1 && s[1..][k] == y;
            assert s[k + 1] == y;
          }
        } else {
          assert r[i] == rest[i - 1] && r[j] == rest[j - 1];
        }
      }
    }
  }

  /**
   * A stable sort by `key`, largest first: the order LINQ's `OrderByDescending`
   * produces, and one of the orders an SQL `ORDER BY ... DESC` may produce.
   */
  function SortDesc<T(!new)>(s: seq<T>, key: T -> int): (r: seq<T>)
    ensures multiset(r) == multiset(s)
    ensures |r| == |s|
    ensures forall x :: x in r <==> x in s
    ensures SortedDesc(r, key)
    decreases |s|
  {
    if s == [] then []
    else
      assert s == s[..|s| - 1] + [s[|s| - 1]];
      var r := InsertDesc(SortDesc(s[..|s| - 1], key), s[|s| - 1], key);
      InsertKeepsOrder(SortDesc(s[..|s| - 1], key), s[|s| - 1], key);
      assert forall x :: x in r <==> x in multiset(s);
      r
  }

  /** Inserting an element that no element of `s` is smaller than appends it. */
  lemma {:induction false} InsertLast<T(!new)>(s: seq<T>, x: T, key: T -> int)
    requires forall i :: 0 <= i < |s| ==> key(s[i]) >= key(x)
    ensures InsertDesc(s, x, key) == s + [x]
    decreases |s|
  {
    if s != [] {
      var rest := s[1..];
      assert key(s[0]) >= key(x);
      assert forall i :: 0 <= i < |rest| ==> rest[i] == s[i + 1];
      InsertLast(rest, x, key);
      assert InsertDesc(s, x, key) == [s[0]] + InsertDesc(rest, x, key);
      assert s == [s[0]] + rest;
    }
  }

  /** Sorting a sequence that is already in order leaves it as it is (stability). */
  lemma {:induction false} SortSorted<T(!new)>(s: seq<T>, key: T -> int)
    requires SortedDesc(s, key)
    ensures SortDesc(s, key) == s
    decreases |s|
  {
    if s != [] {
      var n := |s| - 1;
      var front := s[..n];
      SortedFront(s, front, key);
      SortSorted(front, key);
      AppendSmallest(s, front, key);
      SortDescStep(s, key);
    }
  }

  /** Inserting the last element of an ordered sequence into the rest puts it back at the end. */
  lemma AppendSmallest<T(!new)>(s: seq<T>, front: seq<T>, key: T -> int)
    requires |s| >= 1 && SortedDesc(s, key)
    requires front == s[..|s| - 1]
    ensures InsertDesc(front, s[|s| - 1], key) == s
  {
    SortedFront(s, front, key);
    InsertLast(front, s[|s| - 1], key);
    assert s == front + [s[|s| - 1]];
  }

  /** Sorting sorts all but the last element, then inserts that one. */
  lemma SortDescStep<T(!new)>(s: seq<T>, key: T -> int)
    requires |s| >= 1
    ensures SortDesc(s, key) == InsertDesc(SortDesc(s[..|s| - 1], key), s[|s| - 1], key)
  {
  }

  /** Dropping the last element of an ordered sequence leaves an ordered sequence above that element. */
  lemma SortedFront<T>(s: seq<T>, front: seq<T>, key: T -> int)
    requires |s| >= 1 && SortedDesc(s, key)
    requires front == s[..|s| - 1]
    ensures SortedDesc(front, key)
    ensures forall i :: 0 <= i < |front| ==> key(front[i]) >= key(s[|s| - 1])
  {
    assert forall i :: 0 <= i < |front| ==> front[i] == s[i];
  }

  /** Every element `q` keeps, `p` keeps too, so `p` keeps at least as many. */
  lemma {:induction false} FilterWeaker<T(!new)>(s: seq<T>, p: T -> bool, q: T -> bool)
    requires forall x :: q(x) ==> p(x)
    ensures |Filter(s, q)| <= |Filter(s, p)|
    decreases |s|
  {
    if s != [] {
      FilterWeaker(s[..|s| - 1], p, q);
    }
  }

  /** A selection that every element passes keeps the whole sequence. */
  lemma {:induction false} FilterAll<T(!new)>(s: seq<T>, p: T -> bool)
    requires forall i :: 0 <= i < |s| ==> p(s[i])
    ensures Filter(s, p) == s
    decreases |s|
  {
    if s != [] {
      var n := |s| - 1;
      var front := s[..n];
      assert Filter(front, p) == front by {
        assert forall i :: 0 <= i < n ==> front[i] == s[i];
        FilterAll(front, p);
      }
      assert p(s[n]);
      assert s == front + [s[n]];
    }
  }

  /** A selection that no element passes keeps nothing. */
  lemma {:induction false} FilterNone<T(!new)>(s: seq<T>, p: T -> bool)
    requires forall i :: 0 <= i < |s| ==> !p(s[i])
    ensures Filter(s, p) == []
    decreases |s|
  {
    if s != [] {
      FilterNone(s[..|s| - 1], p);
    }
  }

  /** Selecting from one more element adds it at the end if it passes. */
  lemma FilterStep<T(!new)>(s: seq<T>, i: nat, p: T -> bool)
    requires i < |s|
    ensures Filter(s[..i + 1], p) == Filter(s[..i], p) + (if p(s[i]) then [s[i]] else [])
  {
    assert s[..i + 1][..i] == s[..i];
  }

  /**
   * Two lists of equal length whose filters agree position by position select
   * equally many elements from each prefix.
   */
  lemma {:induction false} FilterCountsAgree<A(!new), B(!new)>(xs: seq<A>, ys: seq<B>, p: A -> bool, q: B -> bool, n: nat)
    requires |xs| == |ys| && n <= |xs|
    requires forall i :: 0 <= i < |xs| ==> p(xs[i]) == q(ys[i])
    ensures |Filter(xs[..n], p)| == |Filter(ys[..n], q)|
  {
    if n > 0 {
      FilterCountsAgree(xs, ys, p, q, n - 1);
      FilterStep(xs, n - 1, p);
      FilterStep(ys, n - 1, q);
    }
  }

  /** Sequences with the same multiset have the same elements. */
  lemma SameElements<T>(a: seq<T>, b: seq<T>)
    requires multiset(a) == multiset(b)
    ensures forall x :: x in a <==> x in b
    ensures |a| == |b|
  {
    assert forall x :: x in a <==> x in multiset(a);
    assert forall x :: x in b <==> x in multiset(b);
    assert |a| == |multiset(a)|;
  }

  /** Selections that agree on every element keep the same elements. */
  lemma {:induction false} FilterCongruent<T(!new)>(s: seq<T>, p: T -> bool, q: T -> bool)
    requires forall i :: 0 <= i < |s| ==> p(s[i]) == q(s[i])
    ensures Filter(s, p) == Filter(s, q)
    decreases |s|
  {
    if s != [] {
      FilterCongruent(s[..|s| - 1], p, q);
    }
  }

  /** A selection keeps every copy of the elements that pass and none of the others. */
  lemma {:induction false} FilterMultiset<T(!new)>(s: seq<T>, p: T -> bool, x: T)
    ensures multiset(Filter(s, p))[x] == if p(x) then multiset(s)[x] else 0
    decreases |s|
  {
    if s != [] {
      var n := |s| - 1;
      FilterMultiset(s[..n], p, x);
      assert s == s[..n] + [s[n]];
    }
  }

  /** Selecting from two arrangements of the same elements keeps the same elements. */
  lemma FilterPermutation<T(!new)>(a: seq<T>, b: seq<T>, p: T -> bool)
    requires multiset(a) == multiset(b)
    ensures multiset(Filter(a, p)) == multiset(Filter(b, p))
    ensures |Filter(a, p)| == |Filter(b, p)|
  {
    forall x ensures multiset(Filter(a, p))[x] == multiset(Filter(b, p))[x] {
      FilterMultiset(a, p, x);
      FilterMultiset(b, p, x);
    }
    assert multiset(Filter(a, p)) == multiset(Filter(b, p));
    assert |multiset(Filter(a, p))| == |Filter(a, p)|;
  }

  /** A selection from an ordered sequence is ordered. */
  lemma {:induction false} FilterKeepsOrder<T(!new)>(s: seq<T>, p: T -> bool, key: T -> int)
    requires SortedDesc(s, key)
    ensures SortedDesc(Filter(s, p), key)
    decreases |s|
  {
    if s != [] {
      var n := |s| - 1;
      var front := s[..n];
      assert SortedDesc(front, key) by {
        forall i, j | 0 <= i < j < |front| ensures key(front[i]) >= key(front[j]) {
          assert front[i] == s[i] && front[j] == s[j];
        }
      }
      FilterKeepsOrder(front, p, key);
      var r := Filter(front, p);
      if p(s[n]) {
        forall i | 0 <= i < |r| ensures key(r[i]) >= key(s[n]) {
          assert r[i] in r;
          var k :| 0 <= k < n && front[k] == r[i];
          assert s[k] == r[i];
        }
        assert Filter(s, p) == r + [s[n]];
      }
    }
  }
}
