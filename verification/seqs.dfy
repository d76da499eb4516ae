/** Sequence helpers shared by every stage of the pipeline: row filtering (a
    pandas boolean mask), repetition (the multiplicity of an inner join),
    first-occurrence de-duplication, and the statistics numpy computes
    (sum, mean, population variance). */
module Seqs {

  /** `r` can be obtained from `s` by deleting elements: it keeps their order. */
  predicate IsSubsequence<T(==)>(r: seq<T>, s: seq<T>)
    decreases |s|
  {
    if |r| == 0 then true
    else if |s| == 0 then false
    else if r[0] == s[0] then IsSubsequence(r[1..], s[1..])
    else IsSubsequence(r, s[1..])
  }

  /** No value occurs twice. */
  predicate NoDuplicates<T(==)>(s: seq<T>) {
    forall i, j :: 0 <= i < j < |s| ==> s[i] != s[j]
  }

  lemma NoDuplicatesTail<T>(s: seq<T>)
    requires NoDuplicates(s) && |s| > 0
    ensures NoDuplicates(s[1..]) && s[0] !in s[1..]
  {
    forall j | 0 <= j < |s| - 1
      ensures s[1..][j] != s[0]
    {
      assert s[1..][j] == s[j + 1];
    }
  }

  lemma NoDuplicatesCons<T>(x: T, s: seq<T>)
    requires NoDuplicates(s) && x !in s
    ensures NoDuplicates([x] + s)
  {
    forall i, j | 0 <= i < j < |s| + 1
      ensures ([x] + s)[i] != ([x] + s)[j]
    {
      assert ([x] + s)[j] == s[j - 1];
      if i > 0 { assert ([x] + s)[i] == s[i - 1]; }
    }
  }

  /** The rows of `s` that satisfy `p`, in their original order: what
      `df[mask]` selects. The result is the order-preserving subsequence
      holding every satisfying row with its multiplicity and nothing else,
      which determines it uniquely. */
  function Filter<T(==,!new)>(s: seq<T>, p: T -> bool): (r: seq<T>)
    ensures IsSubsequence(r, s)
    ensures forall x {:trigger multiset(r)[x]} :: multiset(r)[x] == if p(x) then multiset(s)[x] else 0
    ensures forall x :: x in r <==> x in s && p(x)
    decreases |s|
  {
    if |s| == 0 then []
    else
      assert s == [s[0]] + s[1..];
      var rest := Filter(s[1..], p);
      if p(s[0]) then
        assert ([s[0]] + rest)[1..] == rest;
        [s[0]] + rest
      else
        rest
  }

  /** Filtering commutes with concatenation: each row is kept or dropped on
      its own merits, wherever it sits in the table. */
  lemma {:induction false} FilterConcat<T(!new)>(a: seq<T>, b: seq<T>, p: T -> bool)
    ensures Filter(a + b, p) == Filter(a, p) + Filter(b, p)
    decreases |a|
  {
    if |a| == 0 {
      assert a + b == b;
    } else {
      assert (a + b)[1..] == a[1..] + b;
      FilterConcat(a[1..], b, p);
    }
  }

  /** A mask never adds rows. */
  lemma {:induction false} FilterLength<T(!new)>(s: seq<T>, p: T -> bool)
    ensures |Filter(s, p)| <= |s|
    decreases |s|
  {
    if |s| > 0 {
      FilterLength(s[1..], p);
    }
  }

  /** A mask every row passes keeps the whole table. */
  lemma {:induction false} FilterKeepsAll<T(!new)>(s: seq<T>, p: T -> bool)
    requires forall x :: x in s ==> p(x)
    ensures Filter(s, p) == s
    decreases |s|
  {
    if |s| > 0 {
      assert forall x :: x in s[1..] ==> x in s;
      FilterKeepsAll(s[1..], p);
      assert s == [s[0]] + s[1..];
    }
  }

  /** A mask no row passes keeps nothing. */
  lemma {:induction false} FilterKeepsNone<T(!new)>(s: seq<T>, p: T -> bool)
    requires forall x :: x in s ==> !p(x)
    ensures Filter(s, p) == []
    decreases |s|
  {
    if |s| > 0 {
      assert s[0] in s;
      assert forall x :: x in s[1..] ==> x in s;
      FilterKeepsNone(s[1..], p);
    }
  }

  /** One column of a table: `f` of every row, in row order. */
  function Column<R, T>(rows: seq<R>, f: R -> T): (r: seq<T>)
    ensures |r| == |rows|
    ensures forall i :: 0 <= i < |rows| ==> r[i] == f(rows[i])
  {
    seq(|rows|, i requires 0 <= i < |rows| => f(rows[i]))
  }

  /** `n` copies of `s` laid end to end. */
  function Repeat<T(==,!new)>(s: seq<T>, n: nat): (r: seq<T>)
    ensures |r| == n * |s|
    ensures forall x {:trigger multiset(r)[x]} :: multiset(r)[x] == n * multiset(s)[x]
  {
    if n == 0 then [] else s + Repeat(s, n - 1)
  }

  /** The distinct values of `s`, each at its first occurrence. */
  function Distinct<T(==,!new)>(s: seq<T>): (r: seq<T>)
    ensures NoDuplicates(r)
    ensures forall x :: x in r <==> x in s
    decreases |s|
  {
    if |s| == 0 then []
    else
      var init := Distinct(s[..|s| - 1]);
      var last := s[|s| - 1];
      assert s == s[..|s| - 1] + [last];
      if last in init then init else init + [last]
  }

  /** A sequence has at least as many positions as distinct values. */
  lemma {:induction false} CardinalityOfElements<T>(s: seq<T>)
    ensures |set x | x in s| <= |s|
  {
    if |s| > 0 {
      CardinalityOfElements(s[1..]);
      assert (set x | x in s) == {s[0]} + (set x | x in s[1..]);
    }
  }

  /** Without duplicates, the number of distinct values is the length. */
  lemma {:induction false} CardinalityOfDistinct<T>(s: seq<T>)
    requires NoDuplicates(s)
    ensures |set x | x in s| == |s|
  {
    if |s| > 0 {
      CardinalityOfDistinct(s[1..]);
      assert (set x | x in s) == {s[0]} + (set x | x in s[1..]);
      assert s[0] !in (set x | x in s[1..]);
    }
  }

  lemma SubsetCardinality<T>(a: set<T>, b: set<T>)
    requires a <= b
    ensures |a| <= |b|
  {
    assert b == a + (b - a);
  }

  lemma ProperSubsetCardinality<T>(a: set<T>, b: set<T>)
    requires a < b
    ensures |a| < |b|
  {
    assert b == a + (b - a);
    assert |b - a| > 0;
  }

  /** A value at two positions is counted twice. */
  lemma TwoOccurrences<T>(s: seq<T>, i: int, j: int)
    requires 0 <= i < j < |s| && s[i] == s[j]
    ensures multiset(s)[s[i]] >= 2
  {
    assert s == s[..i] + [s[i]] + s[i + 1..j] + [s[j]] + s[j + 1..];
  }

  function Sum(s: seq<real>): real
  {
    if |s| == 0 then 0.0 else s[0] + Sum(s[1..])
  }

  lemma {:induction false} SumConcat(a: seq<real>, b: seq<real>)
    ensures Sum(a + b) == Sum(a) + Sum(b)
    decreases |a|
  {
    if |a| == 0 {
      assert a + b == b;
    } else {
      assert (a + b)[1..] == a[1..] + b;
      SumConcat(a[1..], b);
    }
  }

  /** numpy's `mean`. */
  function Mean(s: seq<real>): real
    requires |s| > 0
  {
    Sum(s) / (|s| as real)
  }

  /** The sum of squared deviations from `m`, never negative. */
  function SquaredDeviations(s: seq<real>, m: real): (r: real)
    ensures r >= 0.0
  {
    if |s| == 0 then 0.0
    else
      var d := s[0] - m;
      assert d * d >= 0.0 by {
        if d < 0.0 { assert d * d == (-d) * (-d); }
      }
      d * d + SquaredDeviations(s[1..], m)
  }

  /** numpy's `var` with `ddof=0`: the divisor is the number of values. */
  function PopulationVariance(s: seq<real>): (r: real)
    requires |s| > 0
    ensures r >= 0.0
  {
    SquaredDeviations(s, Mean(s)) / (|s| as real)
  }

  /** A sum of non-negative values is non-negative. */
  lemma {:induction false} SumNonNegative(s: seq<real>)
    requires forall x :: x in s ==> 0.0 <= x
    ensures 0.0 <= Sum(s)
  {
    if |s| > 0 {
      assert s[0] in s;
      assert forall x :: x in s[1..] ==> x in s;
      SumNonNegative(s[1..]);
    }
  }

  /** Values bounded by `lo` and `hi` have a sum between `n * lo` and `n * hi`. */
  lemma {:induction false} SumBounds(s: seq<real>, lo: real, hi: real)
    requires forall x :: x in s ==> lo <= x <= hi
    ensures lo * (|s| as real) <= Sum(s) <= hi * (|s| as real)
  {
    if |s| > 0 {
      assert s[0] in s;
      assert forall x :: x in s[1..] ==> x in s;
      SumBounds(s[1..], lo, hi);
      var m := |s[1..]| as real;
      assert |s| as real == m + 1.0;
      assert lo * (m + 1.0) == lo * m + lo;
      assert hi * (m + 1.0) == hi * m + hi;
    }
  }

  /** The mean of values between `lo` and `hi` is itself between them. */
  lemma MeanBounds(s: seq<real>, lo: real, hi: real)
    requires |s| > 0
    requires forall x :: x in s ==> lo <= x <= hi
    ensures lo <= Mean(s) <= hi
  {
    SumBounds(s, lo, hi);
    var n := |s| as real;
    assert Mean(s) * n == Sum(s);
  }
}
