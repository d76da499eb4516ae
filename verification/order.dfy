/** Orderings the pipeline sorts by: Python's comparison of `str` values (the
    order in which `groupby` lists its groups) and the descending order of
    real values (ratings, populations, GDP per capita). */
module Order {
  import opened Seqs

  // ---------------------------------------------------------------------------
  // Strings
  // ---------------------------------------------------------------------------

  /** Python's `a < b` on `str`: lexicographic by code point, with a proper
      prefix ordered first. */
  predicate Before(a: string, b: string)
    decreases |a|
  {
    |b| > 0 && (|a| == 0 || a[0] < b[0] || (a[0] == b[0] && Before(a[1..], b[1..])))
  }

  lemma {:induction false} BeforeIrreflexive(a: string)
    ensures !Before(a, a)
    decreases |a|
  {
    if |a| > 0 {
      BeforeIrreflexive(a[1..]);
    }
  }

  lemma {:induction false} BeforeTransitive(a: string, b: string, c: string)
    requires Before(a, b) && Before(b, c)
    ensures Before(a, c)
    decreases |a|
  {
    if |a| > 0 && a[0] == b[0] && b[0] == c[0] {
      BeforeTransitive(a[1..], b[1..], c[1..]);
    }
  }

  /** Any two distinct strings are ordered one way or the other. */
  lemma {:induction false} BeforeTotal(a: string, b: string)
    ensures a == b || Before(a, b) || Before(b, a)
    decreases |a|
  {
    if |a| > 0 && |b| > 0 && a[0] == b[0] {
      BeforeTotal(a[1..], b[1..]);
      assert a == [a[0]] + a[1..];
      assert b == [b[0]] + b[1..];
    }
  }

  /** Strictly increasing in Python's string order, so without duplicates. */
  predicate StrictlyAscending(s: seq<string>) {
    forall i, j :: 0 <= i < j < |s| ==> Before(s[i], s[j])
  }

  lemma AscendingHasNoDuplicates(s: seq<string>)
    requires StrictlyAscending(s)
    ensures NoDuplicates(s)
  {
    forall i, j | 0 <= i < j < |s|
      ensures s[i] != s[j]
    {
      BeforeIrreflexive(s[i]);
    }
  }

  /** The first key of an ascending list comes before all the others. */
  lemma AscendingTail(s: seq<string>)
    requires StrictlyAscending(s) && |s| > 0
    ensures StrictlyAscending(s[1..])
    ensures forall y :: y in s[1..] ==> Before(s[0], y)
    ensures forall y :: y in s <==> y == s[0] || y in s[1..]
  {
    forall y | y in s[1..]
      ensures Before(s[0], y)
    {
      var j :| 0 <= j < |s[1..]| && s[1..][j] == y;
      assert s[j + 1] == y;
    }
    assert s == [s[0]] + s[1..];
  }

  lemma PrependAscending(k: string, s: seq<string>)
    requires StrictlyAscending(s)
    requires forall y :: y in s ==> Before(k, y)
    ensures StrictlyAscending([k] + s)
  {
    forall i, j | 0 <= i < j < |[k] + s|
      ensures Before(([k] + s)[i], ([k] + s)[j])
    {
      assert s[j - 1] in s;
      if i > 0 {
        assert ([k] + s)[i] == s[i - 1];
      }
    }
  }

  /** Adds `k` to a strictly ascending list of keys, unless it is already there. */
  function InsertKey(s: seq<string>, k: string): (r: seq<string>)
    requires StrictlyAscending(s)
    ensures StrictlyAscending(r)
    ensures forall x :: x in r <==> x in s || x == k
  {
    if |s| == 0 then [k]
    else if k == s[0] then s
    else if Before(k, s[0]) then
      assert forall j :: 0 <= j < |s| ==> Before(k, s[j]) by {
        forall j | 0 <= j < |s|
          ensures Before(k, s[j])
        {
          if j > 0 { BeforeTransitive(k, s[0], s[j]); }
        }
      }
      [k] + s
    else
      BeforeTotal(k, s[0]);
      var rest := InsertKey(s[1..], k);
      assert forall y :: y in rest ==> Before(s[0], y);
      [s[0]] + rest
  }

  /** The distinct keys of `xs` in ascending order: the group order of a
      pandas `groupby` over a string column. */
  function SortedKeys(xs: seq<string>): (r: seq<string>)
    ensures StrictlyAscending(r)
    ensures forall x :: x in r <==> x in xs
  {
    if |xs| == 0 then [] else InsertKey(SortedKeys(xs[1..]), xs[0])
  }

  // ---------------------------------------------------------------------------
  // Reals, descending
  // ---------------------------------------------------------------------------

  predicate NonIncreasing(s: seq<real>) {
    forall i, j :: 0 <= i < j < |s| ==> s[i] >= s[j]
  }

  function InsertDescending(s: seq<real>, x: real): (r: seq<real>)
    requires NonIncreasing(s)
    ensures NonIncreasing(r)
    ensures multiset(r) == multiset(s) + multiset{x}
  {
    if |s| == 0 then [x]
    else
      assert s == [s[0]] + s[1..];
      HeadIsMax(s);
      if x >= s[0] then
        PrependNonIncreasing(x, s);
        [x] + s
      else
        var rest := InsertDescending(s[1..], x);
        BoundedByHead(s, x, rest);
        PrependNonIncreasing(s[0], rest);
        [s[0]] + rest
  }

  /** The tail of `s` with `x` added stays below the head when `x` does. */
  lemma BoundedByHead(s: seq<real>, x: real, rest: seq<real>)
    requires |s| > 0 && x < s[0]
    requires forall y :: y in s ==> s[0] >= y
    requires multiset(rest) == multiset(s[1..]) + multiset{x}
    ensures forall y :: y in rest ==> s[0] >= y
  {
    forall y | y in rest
      ensures s[0] >= y
    {
      assert y in multiset(rest);
      if y != x {
        assert y in multiset(s[1..]);
        assert y in s;
      }
    }
  }

  lemma PrependNonIncreasing(x: real, s: seq<real>)
    requires NonIncreasing(s)
    requires forall y :: y in s ==> x >= y
    ensures NonIncreasing([x] + s)
  {
    forall i, j | 0 <= i < j < |s| + 1
      ensures ([x] + s)[i] >= ([x] + s)[j]
    {
      assert ([x] + s)[j] == s[j - 1];
      assert s[j - 1] in s;
      if i > 0 { assert ([x] + s)[i] == s[i - 1]; }
    }
  }

  /** `s` sorted from largest to smallest: `sort_values(ascending=False)`. */
  function SortDescending(s: seq<real>): (r: seq<real>)
    ensures |r| == |s|
    ensures NonIncreasing(r)
    ensures multiset(r) == multiset(s)
  {
    if |s| == 0 then []
    else
      assert s == [s[0]] + s[1..];
      assert multiset(s) == multiset(s[1..]) + multiset{s[0]};
      InsertDescending(SortDescending(s[1..]), s[0])
  }

  /** A multiset has one non-increasing arrangement: a sorted list depends only
      on its values, never on the order they arrived in. */
  lemma {:induction false} NonIncreasingUnique(a: seq<real>, b: seq<real>)
    requires NonIncreasing(a) && NonIncreasing(b)
    requires multiset(a) == multiset(b)
    ensures a == b
    decreases |a|
  {
    assert |a| == |multiset(a)| == |multiset(b)| == |b|;
    if |a| > 0 {
      HeadsEqual(a, b);
      MultisetOfTail(a);
      MultisetOfTail(b);
      TailNonIncreasing(a);
      TailNonIncreasing(b);
      NonIncreasingUnique(a[1..], b[1..]);
      assert a == [a[0]] + a[1..];
      assert b == [b[0]] + b[1..];
    }
  }

  /** Two arrangements of one multiset, both largest first, start alike. */
  lemma HeadsEqual(a: seq<real>, b: seq<real>)
    requires NonIncreasing(a) && NonIncreasing(b)
    requires multiset(a) == multiset(b) && |a| > 0 && |b| > 0
    ensures a[0] == b[0]
  {
    assert a[0] in multiset(b) && b[0] in multiset(a);
    HeadIsMax(a);
    HeadIsMax(b);
  }

  lemma TailNonIncreasing(s: seq<real>)
    requires NonIncreasing(s) && |s| > 0
    ensures NonIncreasing(s[1..])
  {
    forall i, j | 0 <= i < j < |s| - 1
      ensures s[1..][i] >= s[1..][j]
    {
      assert s[1..][i] == s[i + 1] && s[1..][j] == s[j + 1];
    }
  }

  /** In a largest-first list, no element after position `k` exceeds one
      before it. */
  lemma PrefixDominates(s: seq<real>, k: int)
    requires NonIncreasing(s) && 0 <= k <= |s|
    ensures multiset(s[..k]) <= multiset(s)
    ensures forall a, b :: a in s[..k] && b in multiset(s) - multiset(s[..k]) ==> b <= a
  {
    PrefixDominatesSuffix(s, k);
    SplitMultiset(s, k);
  }

  /** Every value before position `k` is at least every value from `k` on. */
  lemma PrefixDominatesSuffix(s: seq<real>, k: int)
    requires NonIncreasing(s) && 0 <= k <= |s|
    ensures forall a, b :: a in s[..k] && b in s[k..] ==> b <= a
  {
    forall a, b | a in s[..k] && b in s[k..]
      ensures b <= a
    {
      var i :| 0 <= i < k && s[..k][i] == a;
      var j :| 0 <= j < |s| - k && s[k..][j] == b;
      assert s[i] == a && s[k + j] == b;
    }
  }

  lemma SplitMultiset(s: seq<real>, k: int)
    requires 0 <= k <= |s|
    ensures multiset(s[..k]) <= multiset(s)
    ensures multiset(s) - multiset(s[..k]) == multiset(s[k..])
  {
    assert s == s[..k] + s[k..];
  }

  lemma HeadIsMax(s: seq<real>)
    requires NonIncreasing(s) && |s| > 0
    ensures forall y :: y in s ==> s[0] >= y
  {
    forall y | y in s
      ensures s[0] >= y
    {
      var j :| 0 <= j < |s| && s[j] == y;
    }
  }

  lemma HeadIsStrictMax(s: seq<real>)
    requires StrictlyDecreasing(s) && |s| > 0
    ensures forall y :: y in s[1..] ==> s[0] > y
  {
    forall y | y in s[1..]
      ensures s[0] > y
    {
      var j :| 0 <= j < |s[1..]| && s[1..][j] == y;
      assert s[j + 1] == y;
    }
  }

  lemma PrependDecreasing(x: real, s: seq<real>)
    requires StrictlyDecreasing(s)
    requires forall y :: y in s ==> x > y
    ensures StrictlyDecreasing([x] + s)
  {
    forall i, j | 0 <= i < j < |s| + 1
      ensures ([x] + s)[i] > ([x] + s)[j]
    {
      assert ([x] + s)[j] == s[j - 1];
      assert s[j - 1] in s;
      if i > 0 { assert ([x] + s)[i] == s[i - 1]; }
    }
  }

  lemma MultisetOfTail(s: seq<real>)
    requires |s| > 0
    ensures multiset(s[1..]) == multiset(s) - multiset{s[0]}
  {
    assert s == [s[0]] + s[1..];
  }

  predicate StrictlyDecreasing(s: seq<real>) {
    forall i, j :: 0 <= i < j < |s| ==> s[i] > s[j]
  }

  function InsertDistinctDescending(s: seq<real>, x: real): (r: seq<real>)
    requires StrictlyDecreasing(s)
    ensures StrictlyDecreasing(r)
    ensures forall y :: y in r <==> y in s || y == x
  {
    if |s| == 0 then [x]
    else
      assert s == [s[0]] + s[1..];
      HeadIsStrictMax(s);
      if x == s[0] then s
      else if x > s[0] then
        PrependDecreasing(x, s);
        [x] + s
      else
        var rest := InsertDistinctDescending(s[1..], x);
        PrependDecreasing(s[0], rest);
        [s[0]] + rest
  }

  /** The distinct values of `s`, largest first. */
  function DistinctDescending(s: seq<real>): (r: seq<real>)
    ensures StrictlyDecreasing(r)
    ensures forall y :: y in r <==> y in s
  {
    if |s| == 0 then [] else InsertDistinctDescending(DistinctDescending(s[1..]), s[0])
  }

  /** The position of `x` in `s`. */
  function IndexOf(s: seq<real>, x: real): (k: nat)
    requires x in s
    ensures k < |s| && s[k] == x
  {
    if s[0] == x then 0 else 1 + IndexOf(s[1..], x)
  }

  /** In a strictly decreasing list, the values above position `k` are exactly
      the `k` values before it. */
  lemma GreaterArePrefix(d: seq<real>, k: int)
    requires StrictlyDecreasing(d)
    requires 0 <= k < |d|
    ensures (set y | y in d && y > d[k]) == (set y | y in d[..k])
    ensures |set y | y in d && y > d[k]| == k
  {
    forall y | y in d && y > d[k]
      ensures y in d[..k]
    {
      var j :| 0 <= j < |d| && d[j] == y;
      assert j < k;
    }
    assert NoDuplicates(d[..k]);
    CardinalityOfDistinct(d[..k]);
  }
}
