/**
 * The candidate pools of the three difficulty tiers: which numbers the
 * drill may ask about, built by the nested loops of `getNumberRange` and
 * characterised digit by digit.
 */
module Pools {
  import opened Sequences

  datatype Level = Easy | Medium | Hard

  function HundredsDigit(n: int): (d: int)
    ensures 100 <= n <= 999 ==> 1 <= d <= 9
  {
    n / 100
  }

  function TensDigit(n: int): (t: int)
    ensures 0 <= t <= 9
  {
    n % 100 / 10
  }

  /**
   * The pool of a tier as a set: easy holds the exact hundreds, medium the
   * multiples of ten from 100 to 990, hard every number from 100 to 999
   * that is an exact hundred or has a units digit.
   */
  predicate InPool(level: Level, n: int) {
    match level
    case Easy => 100 <= n <= 900 && n % 100 == 0
    case Medium => 100 <= n <= 990 && n % 10 == 0
    case Hard => 100 <= n <= 999 && (n % 100 == 0 || n % 10 != 0)
  }

  function PoolSize(level: Level): (size: nat) {
    match level
    case Easy => 9
    case Medium => 90
    case Hard => 819
  }

  ghost predicate StrictlyIncreasing(s: seq<int>) {
    forall i, j | 0 <= i < j < |s| :: s[i] < s[j]
  }

  /** What `GetNumberRange` promises of the pool it returns. */
  ghost predicate IsPool(level: Level, pool: seq<int>) {
    && StrictlyIncreasing(pool)
    && |pool| == PoolSize(level)
    && forall n :: n in pool <==> InPool(level, n)
  }

  lemma IncreasingIsDistinct(s: seq<int>)
    requires StrictlyIncreasing(s)
    ensures Distinct(s)
  {
  }

  /** Appending a value above everything keeps a sequence strictly increasing. */
  lemma AppendAbove(s: seq<int>, x: int)
    requires StrictlyIncreasing(s)
    requires forall k | 0 <= k < |s| :: s[k] < x
    ensures StrictlyIncreasing(s + [x])
  {
  }

  /** A number written with digits h, t, o is in the hard pool iff it is an exact hundred or o is not zero. */
  lemma HardPoolDigits(h: int, t: int, o: int)
    requires 1 <= h <= 9 && 0 <= t <= 9 && 0 <= o <= 9
    ensures InPool(Hard, h * 100 + t * 10 + o) <==> (t == 0 && o == 0) || o != 0
  {
    var n := h * 100 + t * 10 + o;
    assert n == 10 * (h * 10 + t) + o;
    assert n % 10 == o;
    assert n == 100 * h + (t * 10 + o);
    assert n % 100 == t * 10 + o;
  }

  /** The pool of a tier, ascending and without repeats. */
  method GetNumberRange(level: Level) returns (pool: seq<int>)
    ensures IsPool(level, pool)
  {
    match level
    case Easy =>
      pool := seq(9, i => (i + 1) * 100);
      forall n | InPool(Easy, n)
        ensures n in pool
      {
        assert pool[n / 100 - 1] == n;
      }
    case Medium =>
      pool := MediumRange();
    case Hard =>
      var arr := HardRange();
      FilterKeepsAll(arr, n => n <= 999);
      pool := Filter(arr, n => n <= 999);
  }

  /** The medium tier: each hundred followed by its nine multiples of ten. */
  method MediumRange() returns (arr: seq<int>)
    ensures StrictlyIncreasing(arr)
    ensures |arr| == 90
    ensures forall n :: n in arr <==> InPool(Medium, n)
  {
    arr := [];
    for h := 1 to 10
      invariant |arr| == (h - 1) * 10
      invariant StrictlyIncreasing(arr)
      invariant forall k | 0 <= k < |arr| :: arr[k] < h * 100
      invariant forall n :: n in arr <==> InPool(Medium, n) && n < h * 100
    {
      AppendAbove(arr, h * 100);
      arr := arr + [h * 100];
      for t := 1 to 10
        invariant |arr| == (h - 1) * 10 + t
        invariant StrictlyIncreasing(arr)
        invariant forall k | 0 <= k < |arr| :: arr[k] < h * 100 + t * 10
        invariant forall n :: n in arr <==> InPool(Medium, n) && n < h * 100 + t * 10
      {
        AppendAbove(arr, h * 100 + t * 10);
        arr := arr + [h * 100 + t * 10];
      }
    }
  }

  /**
   * The hard tier before the final `<= 999` filter: each hundred followed
   * by every number of that hundred with a units digit.
   */
  method HardRange() returns (arr: seq<int>)
    ensures StrictlyIncreasing(arr)
    ensures |arr| == 819
    ensures forall n :: n in arr <==> InPool(Hard, n)
  {
    arr := [];
    for h := 1 to 10
      invariant |arr| == (h - 1) * 91
      invariant StrictlyIncreasing(arr)
      invariant forall k | 0 <= k < |arr| :: arr[k] < h * 100
      invariant forall n :: n in arr <==> InPool(Hard, n) && n < h * 100
    {
      AppendAbove(arr, h * 100);
      arr := arr + [h * 100];
      for t := 0 to 10
        invariant |arr| == (h - 1) * 91 + 1 + t * 9
        invariant StrictlyIncreasing(arr)
        invariant forall k | 0 <= k < |arr| :: arr[k] < h * 100 + t * 10 || arr[k] == h * 100
        invariant forall n :: n in arr <==> InPool(Hard, n) && (n < h * 100 + t * 10 || n == h * 100)
      {
        HardPoolDigits(h, t, 0);
        for o := 1 to 10
          invariant |arr| == (h - 1) * 91 + 1 + t * 9 + (o - 1)
          invariant StrictlyIncreasing(arr)
          invariant forall k | 0 <= k < |arr| :: arr[k] < h * 100 + t * 10 + o
          invariant forall n :: n in arr <==> InPool(Hard, n) && (n < h * 100 + t * 10 + o || n == h * 100)
        {
          HardPoolDigits(h, t, o);
          AppendAbove(arr, h * 100 + t * 10 + o);
          arr := arr + [h * 100 + t * 10 + o];
        }
      }
    }
  }
}
