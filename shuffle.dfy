/**
 * `shuffleArray`: pair every element with a random key, sort the pairs by
 * key (a stable sort), and keep the elements. Whatever the keys, the
 * result is a permutation of the input.
 */
module Shuffle {

  /**
   * A random sort key: `Math.random()` yields `k / 2^53` for some
   * `0 <= k < 2^53`, and only the order of keys matters, so the key is `k`.
   */
  const KeyRange: int := 0x20_0000_0000_0000

  ghost predicate SortedByKey<T>(s: seq<(int, T)>) {
    forall i, j | 0 <= i < j < |s| :: s[i].0 <= s[j].0
  }

  /** The elements of keyed pairs, in order. */
  function Values<T>(s: seq<(int, T)>): (r: seq<T>)
    ensures |r| == |s|
    ensures forall i | 0 <= i < |s| :: r[i] == s[i].1
  {
    if s == [] then [] else [s[0].1] + Values(s[1..])
  }

  lemma {:induction false} ValuesAppend<T>(a: seq<(int, T)>, b: seq<(int, T)>)
    ensures Values(a + b) == Values(a) + Values(b)
  {
    if a != [] {
      assert (a + b)[1..] == a[1..] + b;
      ValuesAppend(a[1..], b);
    } else {
      assert a + b == b;
    }
  }

  /**
   * Puts `p` into a key-sorted sequence before the first pair whose key is
   * not smaller, so that pairs with equal keys keep their order.
   */
  function Insert<T>(p: (int, T), s: seq<(int, T)>): (r: seq<(int, T)>)
    ensures multiset(r) == multiset(s) + multiset{p}
  {
    if s == [] || p.0 <= s[0].0 then
      [p] + s
    else
      assert s == [s[0]] + s[1..];
      [s[0]] + Insert(p, s[1..])
  }

  lemma {:induction false} InsertKeepsSorted<T>(p: (int, T), s: seq<(int, T)>)
    requires SortedByKey(s)
    ensures SortedByKey(Insert(p, s))
  {
    if s != [] && p.0 > s[0].0 {
      var rest := Insert(p, s[1..]);
      InsertKeepsSorted(p, s[1..]);
      forall x | x in rest
        ensures s[0].0 <= x.0
      {
        assert x in multiset(rest);
        assert x == p || x in s[1..];
      }
    }
  }

  lemma {:induction false} InsertValues<T>(p: (int, T), s: seq<(int, T)>)
    ensures multiset(Values(Insert(p, s))) == multiset(Values(s)) + multiset{p.1}
  {
    if s == [] || p.0 <= s[0].0 {
      assert Insert(p, s) == [p] + s;
      assert Values([p] + s) == [p.1] + Values(s) by { assert ([p] + s)[1..] == s; }
    } else {
      InsertValues(p, s[1..]);
      var rest := Insert(p, s[1..]);
      assert Insert(p, s) == [s[0]] + rest;
      assert Values([s[0]] + rest) == [s[0].1] + Values(rest) by { assert ([s[0]] + rest)[1..] == rest; }
      assert Values(s) == [s[0].1] + Values(s[1..]);
    }
  }

  /** One step of the insertion sort: inserting the head into the sorted tail sorts the whole. */
  lemma InsertHead<T>(p: (int, T), rest: seq<(int, T)>, tail: seq<(int, T)>)
    requires SortedByKey(rest)
    requires multiset(rest) == multiset(tail)
    requires multiset(Values(rest)) == multiset(Values(tail))
    ensures SortedByKey(Insert(p, rest))
    ensures multiset(Insert(p, rest)) == multiset([p] + tail)
    ensures multiset(Values(Insert(p, rest))) == multiset(Values([p] + tail))
  {
    InsertKeepsSorted(p, rest);
    InsertValues(p, rest);
    ValuesAppend([p], tail);
    assert Values([p]) == [p.1];
  }

  /** Insertion sort by key; stable, like the sort the source relies on. */
  function SortByKey<T>(s: seq<(int, T)>): (r: seq<(int, T)>)
    ensures SortedByKey(r)
    ensures multiset(r) == multiset(s)
    ensures multiset(Values(r)) == multiset(Values(s))
  {
    if s == [] then []
    else
      var rest := SortByKey(s[1..]);
      assert s == [s[0]] + s[1..];
      InsertHead(s[0], rest, s[1..]);
      Insert(s[0], rest)
  }

  /** Reorders `arr` by random keys; the result holds the same elements. */
  method ShuffleArray<T>(arr: seq<T>) returns (r: seq<T>)
    ensures multiset(r) == multiset(arr)
    ensures |r| == |arr|
  {
    var keyed: seq<(int, T)> := [];
    for i := 0 to |arr|
      invariant Values(keyed) == arr[..i]
    {
      var key :| 0 <= key < KeyRange;
      ValuesAppend(keyed, [(key, arr[i])]);
      keyed := keyed + [(key, arr[i])];
    }
    assert arr[..|arr|] == arr;
    r := Values(SortByKey(keyed));
  }
}
