/**
 * Sequence helpers shared by the quiz model: duplicate-freedom, the
 * `Array.prototype.filter` the pools are cut down with, and the counting
 * facts that let a "pick something not yet taken" step always succeed.
 */
module Sequences {

  /** No value occurs twice in `s`. */
  ghost predicate Distinct<T>(s: seq<T>) {
    forall i, j | 0 <= i < j < |s| :: s[i] != s[j]
  }

  /** The elements of `s` that satisfy `keep`, in their original order. */
  function Filter(s: seq<int>, keep: int -> bool): (r: seq<int>)
    ensures |r| <= |s|
    ensures forall x :: x in r <==> x in s && keep(x)
  {
    if s == [] then []
    else if keep(s[0]) then [s[0]] + Filter(s[1..], keep)
    else Filter(s[1..], keep)
  }

  /** Filtering a duplicate-free sequence leaves it duplicate-free. */
  lemma {:induction false} FilterKeepsDistinct(s: seq<int>, keep: int -> bool)
    requires Distinct(s)
    ensures Distinct(Filter(s, keep))
  {
    if s != [] {
      assert Distinct(s[1..]);
      FilterKeepsDistinct(s[1..], keep);
      assert s[0] !in s[1..];
    }
  }

  /** A filter that every element passes changes nothing. */
  lemma {:induction false} FilterKeepsAll(s: seq<int>, keep: int -> bool)
    requires forall x | x in s :: keep(x)
    ensures Filter(s, keep) == s
  {
    if s != [] {
      var head := s[0];
      assert head in s && keep(head);
      FilterKeepsAll(s[1..], keep);
      assert s == [head] + s[1..];
    }
  }

  /** A duplicate-free sequence has as many distinct values as elements. */
  lemma {:induction false} DistinctSetSize<T>(s: seq<T>)
    requires Distinct(s)
    ensures |set x | x in s| == |s|
  {
    if s != [] {
      assert Distinct(s[1..]);
      DistinctSetSize(s[1..]);
      assert (set x | x in s) == {s[0]} + (set x | x in s[1..]);
      assert s[0] !in (set x | x in s[1..]);
    }
  }

  /** Any sequence has at most as many distinct values as elements. */
  lemma {:induction false} SetSizeAtMostLength<T>(s: seq<T>)
    ensures |set x | x in s| <= |s|
  {
    if s != [] {
      SetSizeAtMostLength(s[1..]);
      assert (set x | x in s) == {s[0]} + (set x | x in s[1..]);
    }
  }

  /** A subset is no larger than its superset. */
  lemma SubsetSize<T>(a: set<T>, b: set<T>)
    requires a <= b
    ensures |a| <= |b|
  {
    assert b == a + (b - a);
  }

  /** A duplicate-free sequence whose elements all occur in `b` is no longer than `b`. */
  lemma DistinctNoLonger<T>(a: seq<T>, b: seq<T>)
    requires Distinct(a)
    requires forall x | x in a :: x in b
    ensures |a| <= |b|
  {
    DistinctSetSize(a);
    SetSizeAtMostLength(b);
    SubsetSize((set x | x in a), (set x | x in b));
  }

  /**
   * Pigeonhole: when fewer values are taken than `s` has (distinct)
   * elements, some element of `s` is still free.
   */
  lemma FreshElementExists<T>(s: seq<T>, taken: set<T>)
    requires Distinct(s)
    requires |taken| < |s|
    ensures exists i :: 0 <= i < |s| && s[i] !in taken
  {
    if forall i | 0 <= i < |s| :: s[i] in taken {
      DistinctSetSize(s);
      SubsetSize((set x | x in s), taken);
      assert false;
    }
  }

  /** Being duplicate-free is the same as every value occurring at most once. */
  lemma {:induction false} DistinctIffAtMostOnce<T>(s: seq<T>)
    ensures Distinct(s) <==> forall x :: multiset(s)[x] <= 1
  {
    if s != [] {
      var t := s[1..];
      assert s == [s[0]] + t;
      assert multiset(s) == multiset{s[0]} + multiset(t);
      DistinctIffAtMostOnce(t);
      if Distinct(s) {
        assert Distinct(t);
        assert s[0] !in t;
      } else {
        var i, j :| 0 <= i < j < |s| && s[i] == s[j];
        if i == 0 {
          assert s[j] in t;
          assert multiset(s)[s[0]] >= 2;
        } else {
          assert t[i - 1] == t[j - 1];
          assert !Distinct(t);
          var x :| multiset(t)[x] > 1;
          assert multiset(s)[x] > 1;
        }
      }
    }
  }

  /** Reordering keeps a sequence duplicate-free. */
  lemma PermutationKeepsDistinct<T>(a: seq<T>, b: seq<T>)
    requires multiset(a) == multiset(b)
    requires Distinct(a)
    ensures Distinct(b)
  {
    DistinctIffAtMostOnce(a);
    DistinctIffAtMostOnce(b);
  }
}
