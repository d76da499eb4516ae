/** The metric columns of the enriched table and the three ranking primitives
    behind them, each with its own tie rule:
    - the votes percentile: average rank of ties, divided by the row count;
    - the population and GDP-per-capita ranks: dense, descending, with a fixed
      placeholder for unknown values;
    - the movie-count rank: minimum rank of ties, descending. */
module Ranking {
  import opened Wrappers
  import opened Seqs
  import opened Order
  import opened Tables

  // ---------------------------------------------------------------------------
  // Votes percentile (add_votes_CDF)
  // ---------------------------------------------------------------------------

  /** The `numVotes` column. */
  function Votes(df: seq<Movie>): seq<nat> {
    Column(df, (m: Movie) => m.numVotes)
  }

  /** The number of entries of `s` smaller than `v`. */
  function CountBelow(s: seq<nat>, v: nat): nat
  {
    if |s| == 0 then 0 else (if s[0] < v then 1 else 0) + CountBelow(s[1..], v)
  }

  /** `rank(method='average')`: the entries equal to `v` would occupy the sorted
      positions `CountBelow + 1 .. CountBelow + E`, and share their mean. */
  function AverageRank(s: seq<nat>, v: nat): real
  {
    (CountBelow(s, v) as real) + ((multiset(s)[v] + 1) as real) / 2.0
  }

  /** `rank(method='average', pct=True)`: the average rank over the row count. */
  function Percentile(s: seq<nat>, v: nat): real
    requires |s| > 0
  {
    AverageRank(s, v) / (|s| as real)
  }

  /** `add_votes_CDF`: each row gets the percentile of its vote count among all
      rows, a value in (0, 1]; nothing else changes. */
  function AddVotesCdf(df: seq<Movie>): (r: seq<Movie>)
    ensures |r| == |df|
    ensures forall i :: 0 <= i < |df| ==> r[i] == df[i].(cdfVotes := Percentile(Votes(df), df[i].numVotes))
    ensures forall i :: 0 <= i < |df| ==> 0.0 < r[i].cdfVotes <= 1.0
  {
    var votes := Votes(df);
    PercentilesBounded(votes);
    seq(|df|, i requires 0 <= i < |df| => df[i].(cdfVotes := Percentile(votes, votes[i])))
  }

  lemma {:induction false} CountBelowConcat(a: seq<nat>, b: seq<nat>, v: nat)
    ensures CountBelow(a + b, v) == CountBelow(a, v) + CountBelow(b, v)
    decreases |a|
  {
    if |a| == 0 {
      assert a + b == b;
    } else {
      assert (a + b)[1..] == a[1..] + b;
      CountBelowConcat(a[1..], b, v);
    }
  }

  /** The entries below or equal to `v` are at most all of them, and all of
      them exactly when none exceeds `v`. */
  lemma {:induction false} AtMostCount(s: seq<nat>, v: nat)
    ensures CountBelow(s, v) + multiset(s)[v] <= |s|
    ensures CountBelow(s, v) + multiset(s)[v] == |s| <==> forall x :: x in s ==> x <= v
    decreases |s|
  {
    if |s| > 0 {
      AtMostCount(s[1..], v);
      assert s == [s[0]] + s[1..];
      assert multiset(s)[v] == (if s[0] == v then 1 else 0) + multiset(s[1..])[v];
      assert CountBelow(s, v) + multiset(s)[v]
        == (if s[0] <= v then 1 else 0) + CountBelow(s[1..], v) + multiset(s[1..])[v];
      assert s[0] in s;
      if forall x :: x in s[1..] ==> x <= v {
        forall x | x in s
          ensures x == s[0] || x in s[1..]
        {
          var j :| 0 <= j < |s| && s[j] == x;
          if j > 0 { assert s[1..][j - 1] == x; }
        }
      } else {
        var x :| x in s[1..] && x > v;
        assert x in s;
      }
    }
  }

  /** Entries below `v` or equal to it are all below a larger `w`. */
  lemma {:induction false} BelowHigher(s: seq<nat>, v: nat, w: nat)
    requires v < w
    ensures CountBelow(s, v) + multiset(s)[v] <= CountBelow(s, w)
    decreases |s|
  {
    if |s| > 0 {
      BelowHigher(s[1..], v, w);
      assert s == [s[0]] + s[1..];
      assert multiset(s)[v] == (if s[0] == v then 1 else 0) + multiset(s[1..])[v];
    }
  }

  lemma {:induction false} AllBelow(s: seq<nat>, v: nat)
    requires forall j :: 0 <= j < |s| ==> s[j] < v
    ensures CountBelow(s, v) == |s|
    ensures multiset(s)[v] == 0
    decreases |s|
  {
    if |s| > 0 {
      AllBelow(s[1..], v);
      assert s == [s[0]] + s[1..];
    }
  }

  /** Taking out the entry at position `k`. */
  lemma RemoveAt(b: seq<nat>, k: int, v: nat)
    requires 0 <= k < |b|
    ensures multiset(b[..k] + b[k + 1..]) == multiset(b) - multiset{b[k]}
    ensures CountBelow(b, v) == CountBelow(b[..k] + b[k + 1..], v) + (if b[k] < v then 1 else 0)
  {
    var pre, post := b[..k], b[k + 1..];
    assert b == pre + ([b[k]] + post);
    CountBelowConcat(pre, [b[k]] + post, v);
    CountBelowConcat(pre, post, v);
    assert ([b[k]] + post)[1..] == post;
  }

  lemma {:induction false} CountBelowPermutation(a: seq<nat>, b: seq<nat>, v: nat)
    requires multiset(a) == multiset(b)
    ensures CountBelow(a, v) == CountBelow(b, v)
    decreases |a|
  {
    assert |a| == |multiset(a)| == |multiset(b)| == |b|;
    if |a| > 0 {
      var x := a[0];
      assert x in multiset(b);
      var k :| 0 <= k < |b| && b[k] == x;
      var tail, rest := a[1..], b[..k] + b[k + 1..];
      RemoveAt(b, k, v);
      assert a == [x] + tail;
      assert multiset(tail) == multiset(a) - multiset{x};
      assert multiset(tail) == multiset(rest);
      CountBelowPermutation(tail, rest, v);
    }
  }

  lemma DivisionBounds(a: real, n: real)
    requires 0.0 < a <= n
    ensures 0.0 < a / n <= 1.0
  {
  }

  /** Every row's percentile lies in (0, 1]. */
  lemma PercentileBounds(s: seq<nat>, i: int)
    requires 0 <= i < |s|
    ensures 0.0 < Percentile(s, s[i]) <= 1.0
  {
    var v := s[i];
    AtMostCount(s, v);
    assert v in multiset(s);
    DivisionBounds(AverageRank(s, v), |s| as real);
  }

  lemma PercentilesBounded(s: seq<nat>)
    ensures forall i :: 0 <= i < |s| ==> 0.0 < Percentile(s, s[i]) <= 1.0
  {
    forall i | 0 <= i < |s|
      ensures 0.0 < Percentile(s, s[i]) <= 1.0
    {
      PercentileBounds(s, i);
    }
  }

  lemma AverageRankOrder(lv: nat, ev: nat, lw: nat, ew: nat)
    requires ev >= 1 && lv + ev <= lw
    ensures (lv as real) + ((ev + 1) as real) / 2.0 < (lw as real) + ((ew + 1) as real) / 2.0
  {
    assert ((ev + 1) as real) / 2.0 <= ev as real;
    assert ((ew + 1) as real) / 2.0 > 0.0;
  }

  lemma DivisionMonotone(a: real, b: real, n: real)
    requires n > 0.0 && a < b
    ensures a / n < b / n
  {
  }

  /** More votes give a strictly larger percentile (and equal votes the same
      one), so the column is non-decreasing in `numVotes`. */
  lemma PercentileMonotone(s: seq<nat>, i: int, j: int)
    requires 0 <= i < |s| && 0 <= j < |s|
    requires s[i] < s[j]
    ensures Percentile(s, s[i]) < Percentile(s, s[j])
  {
    BelowHigher(s, s[i], s[j]);
    assert s[i] in multiset(s);
    AverageRankOrder(CountBelow(s, s[i]), multiset(s)[s[i]], CountBelow(s, s[j]), multiset(s)[s[j]]);
    DivisionMonotone(AverageRank(s, s[i]), AverageRank(s, s[j]), |s| as real);
  }

  lemma CountTwoPositions(s: seq<nat>, i: int, j: int)
    requires 0 <= i < |s| && 0 <= j < |s| && i != j
    ensures multiset(s)[s[i]] >= (if s[j] == s[i] then 2 else 1)
  {
    assert s[i] in multiset(s);
    if s[j] == s[i] {
      if i < j { TwoOccurrences(s, i, j); } else { TwoOccurrences(s, j, i); }
    }
  }

  lemma UniqueMaxCounts(s: seq<nat>, i: int)
    requires 0 <= i < |s|
    requires forall j :: 0 <= j < |s| && j != i ==> s[j] < s[i]
    ensures CountBelow(s, s[i]) == |s| - 1
    ensures multiset(s)[s[i]] == 1
  {
    var v := s[i];
    var pre, post := s[..i], s[i + 1..];
    assert forall j :: 0 <= j < |pre| ==> pre[j] == s[j];
    assert forall j :: 0 <= j < |post| ==> post[j] == s[i + 1 + j];
    AllBelow(pre, v);
    AllBelow(post, v);
    RemoveAt(s, i, v);
    assert multiset(pre + post) == multiset(pre) + multiset(post);
    assert v in multiset(s);
    assert multiset(pre + post)[v] == 0;
    CountBelowConcat(pre, post, v);
  }

  /** An average rank equal to the row count leaves room for one entry only. */
  lemma TopAverageRank(l: nat, e: nat, n: nat)
    requires e >= 1 && l + e <= n
    requires (l as real) + ((e + 1) as real) / 2.0 == n as real
    ensures e == 1 && l + e == n
  {
    assert ((e + 1) as real) / 2.0 >= e as real;
  }

  lemma DivisionIsOne(a: real, n: real)
    requires n > 0.0 && a / n == 1.0
    ensures a == n
  {
    assert a == (a / n) * n;
  }

  lemma UniqueMaxIsOne(s: seq<nat>, i: int)
    requires 0 <= i < |s|
    requires forall j :: 0 <= j < |s| && j != i ==> s[j] < s[i]
    ensures Percentile(s, s[i]) == 1.0
  {
    UniqueMaxCounts(s, i);
    var n := |s| as real;
    assert AverageRank(s, s[i]) == n;
    assert n / n == 1.0;
  }

  lemma OneIsUniqueMax(s: seq<nat>, i: int)
    requires 0 <= i < |s|
    requires Percentile(s, s[i]) == 1.0
    ensures forall j :: 0 <= j < |s| && j != i ==> s[j] < s[i]
  {
    var v := s[i];
    AtMostCount(s, v);
    assert v in multiset(s);
    DivisionIsOne(AverageRank(s, v), |s| as real);
    TopAverageRank(CountBelow(s, v), multiset(s)[v], |s|);
    forall j | 0 <= j < |s| && j != i
      ensures s[j] < v
    {
      assert s[j] in s;
      CountTwoPositions(s, i, j);
    }
  }

  /** A percentile of exactly 1 marks the row whose vote count is the unique
      maximum. */
  lemma PercentileOneIffUniqueMax(s: seq<nat>, i: int)
    requires 0 <= i < |s|
    ensures Percentile(s, s[i]) == 1.0 <==> forall j :: 0 <= j < |s| && j != i ==> s[j] < s[i]
  {
    if Percentile(s, s[i]) == 1.0 {
      OneIsUniqueMax(s, i);
    }
    if forall j :: 0 <= j < |s| && j != i ==> s[j] < s[i] {
      UniqueMaxIsOne(s, i);
    }
  }

  /** The percentile depends only on the vote count and the multiset of all
      vote counts: sorting the table first, or any other reordering of its
      rows, gives every row the same value. */
  lemma VotesCdfIgnoresRowOrder(df1: seq<Movie>, df2: seq<Movie>, i: int, j: int)
    requires multiset(Votes(df1)) == multiset(Votes(df2))
    requires 0 <= i < |df1| && 0 <= j < |df2|
    requires df1[i].numVotes == df2[j].numVotes
    ensures AddVotesCdf(df1)[i].cdfVotes == AddVotesCdf(df2)[j].cdfVotes
  {
    var a, b := Votes(df1), Votes(df2);
    CountBelowPermutation(a, b, df1[i].numVotes);
    assert |a| == |multiset(a)| == |multiset(b)| == |b|;
  }

  // ---------------------------------------------------------------------------
  // Dense descending rank with a placeholder (add_population_rank,
  // add_GDPperCapita_rank)
  // ---------------------------------------------------------------------------

  /** The known values of a column, in row order. */
  function KnownValues(vals: seq<Cell>): (r: seq<real>)
    ensures forall y :: y in r <==> Known(y) in vals
  {
    if |vals| == 0 then []
    else
      assert vals == [vals[0]] + vals[1..];
      (if vals[0].Known? then [vals[0].value] else []) + KnownValues(vals[1..])
  }

  /** The distinct known values of a column. */
  function KnownSet(vals: seq<Cell>): set<real> {
    set c | c in vals && c.Known? :: c.value
  }

  /** The distinct known values strictly greater than `v`. */
  function Greater(vals: seq<Cell>, v: real): set<real> {
    set c | c in vals && c.Known? && c.value > v :: c.value
  }

  /** The dense rank of each row, from a list of the distinct known values
      sorted largest first: a known value ranks one past its position, an
      unknown one gets the placeholder 30. Stated without the list: a known
      value's rank is one more than the number of distinct known values
      above it. */
  function DenseRanks(vals: seq<Cell>): (r: seq<int>)
    ensures |r| == |vals|
    ensures forall i :: 0 <= i < |vals| && vals[i].Unknown? ==> r[i] == UnknownRank
    ensures forall i :: 0 <= i < |vals| && vals[i].Known? ==> r[i] == 1 + |Greater(vals, vals[i].value)|
  {
    var d := DistinctDescending(KnownValues(vals));
    RanksAreGreaterCounts(vals, d);
    seq(|vals|, i requires 0 <= i < |vals| =>
      match vals[i]
      case Unknown => UnknownRank
      case Known(v) => IndexOf(d, v) + 1)
  }

  lemma GreaterIsAboveInList(vals: seq<Cell>, d: seq<real>, v: real)
    requires d == DistinctDescending(KnownValues(vals))
    ensures Greater(vals, v) == (set y | y in d && y > v)
  {
    forall y | y in d && y > v
      ensures y in Greater(vals, v)
    {
      assert Known(y) in vals;
    }
  }

  lemma RanksAreGreaterCounts(vals: seq<Cell>, d: seq<real>)
    requires d == DistinctDescending(KnownValues(vals))
    ensures forall v :: v in d ==> IndexOf(d, v) == |Greater(vals, v)|
  {
    forall v | v in d
      ensures IndexOf(d, v) == |Greater(vals, v)|
    {
      var k := IndexOf(d, v);
      GreaterArePrefix(d, k);
      GreaterIsAboveInList(vals, d, v);
    }
  }

  /** Larger known values get strictly smaller ranks (equal ones share). */
  lemma DenseRankOrder(vals: seq<Cell>, i: int, j: int)
    requires 0 <= i < |vals| && 0 <= j < |vals|
    requires vals[i].Known? && vals[j].Known? && vals[i].value > vals[j].value
    ensures DenseRanks(vals)[i] < DenseRanks(vals)[j]
  {
    var a, b := vals[i].value, vals[j].value;
    assert a in Greater(vals, b);
    assert a !in Greater(vals, a);
    ProperSubsetCardinality(Greater(vals, a), Greater(vals, b));
  }

  /** The ranks `1..k`. */
  function RankRange(k: nat): (r: set<int>)
    ensures forall m :: m in r <==> 1 <= m <= k
  {
    if k == 0 then {} else RankRange(k - 1) + {k}
  }

  /** The ranks written for the rows with a known value. */
  function KnownRanks(vals: seq<Cell>): set<int> {
    set i | 0 <= i < |vals| && vals[i].Known? :: DenseRanks(vals)[i]
  }

  lemma DistinctListLength(vals: seq<Cell>, d: seq<real>)
    requires d == DistinctDescending(KnownValues(vals))
    ensures |d| == |KnownSet(vals)|
  {
    assert (set y | y in d) == KnownSet(vals) by {
      forall y | y in KnownSet(vals)
        ensures y in d
      {
        assert Known(y) in vals;
      }
    }
    assert NoDuplicates(d);
    CardinalityOfDistinct(d);
  }

  /** The known ranks are exactly `1..k`, `k` the number of distinct known
      values: none is out of range and none is skipped. */
  lemma DenseRanksAreOneToCount(vals: seq<Cell>)
    ensures KnownRanks(vals) == RankRange(|KnownSet(vals)|)
  {
    var r := DenseRanks(vals);
    var d := DistinctDescending(KnownValues(vals));
    DistinctListLength(vals, d);
    RanksAreGreaterCounts(vals, d);
    forall i | 0 <= i < |vals| && vals[i].Known?
      ensures 1 <= r[i] <= |d|
    {
      assert vals[i].value in d;
    }
    forall m | m in RankRange(|d|)
      ensures m in KnownRanks(vals)
    {
      var v := d[m - 1];
      assert IndexOf(d, v) == m - 1;
      assert Known(v) in vals;
      var i :| 0 <= i < |vals| && vals[i] == Known(v);
      assert r[i] == m;
    }
  }

  /** The `Population` column. */
  function Populations(df: seq<Movie>): seq<Cell> {
    Column(df, (m: Movie) => m.population)
  }

  /** The `GDP/Population` column. */
  function GdpPerCapitas(df: seq<Movie>): seq<Cell> {
    Column(df, (m: Movie) => m.gdpPerCapita)
  }

  /** `add_population_rank`: dense descending rank of the population (1 = most
      populous), 30 for an unknown population; the population column itself,
      and everything else, is left as it was. */
  function AddPopulationRank(df: seq<Movie>): (r: seq<Movie>)
    ensures |r| == |df|
    ensures forall i :: 0 <= i < |df| ==> r[i] == df[i].(populationRank := r[i].populationRank)
    ensures forall i :: 0 <= i < |df| && df[i].population.Unknown? ==> r[i].populationRank == UnknownRank
    ensures forall i :: 0 <= i < |df| && df[i].population.Known? ==>
      r[i].populationRank == 1 + |Greater(Populations(df), df[i].population.value)|
  {
    var ranks := DenseRanks(Populations(df));
    seq(|df|, i requires 0 <= i < |df| => df[i].(populationRank := ranks[i]))
  }

  /** `add_GDPperCapita_rank`: the same dense descending rank over GDP per
      capita, 30 when it is unknown. */
  function AddGdpPerCapitaRank(df: seq<Movie>): (r: seq<Movie>)
    ensures |r| == |df|
    ensures forall i :: 0 <= i < |df| ==> r[i] == df[i].(gdpPerCapitaRank := r[i].gdpPerCapitaRank)
    ensures forall i :: 0 <= i < |df| && df[i].gdpPerCapita.Unknown? ==> r[i].gdpPerCapitaRank == UnknownRank
    ensures forall i :: 0 <= i < |df| && df[i].gdpPerCapita.Known? ==>
      r[i].gdpPerCapitaRank == 1 + |Greater(GdpPerCapitas(df), df[i].gdpPerCapita.value)|
  {
    var ranks := DenseRanks(GdpPerCapitas(df));
    seq(|df|, i requires 0 <= i < |df| => df[i].(gdpPerCapitaRank := ranks[i]))
  }

  // ---------------------------------------------------------------------------
  // Minimum descending rank of per-country counts
  // (add_movie_count_per_country_rank)
  // ---------------------------------------------------------------------------

  /** The number of rows whose country is `c`: `value_counts()`. */
  function MovieCount(df: seq<Movie>, c: string): nat {
    multiset(Countries(df))[c]
  }

  /** The countries with strictly more rows than `c`. */
  function Ahead(df: seq<Movie>, c: string): set<string> {
    set d | d in Countries(df) && MovieCount(df, d) > MovieCount(df, c)
  }

  /** `rank(ascending=False, method='min')` of `c`'s count among the
      countries' counts. */
  function MinRank(df: seq<Movie>, c: string): int {
    1 + |Ahead(df, c)|
  }

  /** The number of keys whose count exceeds `v`. */
  method CountAhead(keys: seq<string>, counts: map<string, nat>, v: nat) returns (n: nat)
    requires forall k :: k in keys ==> k in counts
    requires NoDuplicates(keys)
    ensures n == |set d | d in keys && counts[d] > v|
  {
    n := 0;
    var t := 0;
    while t < |keys|
      invariant 0 <= t <= |keys|
      invariant n == |set d | d in keys[..t] && counts[d] > v|
    {
      var k := keys[t];
      assert keys[..t + 1] == keys[..t] + [k];
      assert k !in keys[..t];
      if counts[k] > v {
        assert (set d | d in keys[..t + 1] && counts[d] > v) == (set d | d in keys[..t] && counts[d] > v) + {k};
        n := n + 1;
      } else {
        assert (set d | d in keys[..t + 1] && counts[d] > v) == (set d | d in keys[..t] && counts[d] > v);
      }
      t := t + 1;
    }
    assert keys[..|keys|] == keys;
  }

  /** `value_counts()` over a column: the distinct values, each once, and
      the number of times each occurs. */
  method CountValues(cs: seq<string>) returns (counts: map<string, nat>, keys: seq<string>)
    ensures NoDuplicates(keys)
    ensures forall c :: c in keys <==> c in cs
    ensures forall c :: c in counts <==> c in cs
    ensures forall c :: c in counts ==> counts[c] == multiset(cs)[c]
  {
    counts := map[];
    keys := [];
    var i := 0;
    while i < |cs|
      invariant 0 <= i <= |cs|
      invariant NoDuplicates(keys)
      invariant forall c :: c in keys <==> c in cs[..i]
      invariant forall c :: c in counts <==> c in cs[..i]
      invariant forall c :: c in counts ==> counts[c] == multiset(cs[..i])[c]
    {
      var c := cs[i];
      assert cs[..i + 1] == cs[..i] + [c];
      if c in counts {
        counts := counts[c := counts[c] + 1];
      } else {
        counts := counts[c := 1];
        keys := keys + [c];
      }
      i := i + 1;
    }
    assert cs[..|cs|] == cs;
  }

  /** A row with its country's count and that count's minimum rank filled
      in, and every other column as it was. */
  function WithCountRank(df: seq<Movie>, m: Movie): Movie {
    m.(movieCount := MovieCount(df, m.country), rankMovieCount := MinRank(df, m.country))
  }

  /** `add_movie_count_per_country_rank`: every row gets the number of rows of
      its country and that count's minimum rank; the rows, their order and
      their other columns are unchanged. */
  method AddMovieCountRank(df: seq<Movie>) returns (r: seq<Movie>)
    ensures |r| == |df|
    ensures forall i :: 0 <= i < |df| ==> r[i] == WithCountRank(df, df[i])
  {
    var counts, keys := CountValues(Countries(df));
    assert forall d :: d in counts ==> counts[d] == MovieCount(df, d);
    r := [];
    var j := 0;
    while j < |df|
      invariant 0 <= j <= |df|
      invariant |r| == j
      invariant forall t :: 0 <= t < j ==> r[t] == WithCountRank(df, df[t])
    {
      var row := RankRow(df, keys, counts, j);
      AppendRow(r, row, df, j);
      r := r + [row];
      j := j + 1;
    }
  }

  /** Appending row `j`'s ranked copy extends a correctly ranked prefix. */
  lemma AppendRow(prev: seq<Movie>, row: Movie, df: seq<Movie>, j: int)
    requires 0 <= j < |df| && |prev| == j
    requires forall t :: 0 <= t < j ==> prev[t] == WithCountRank(df, df[t])
    requires row == WithCountRank(df, df[j])
    ensures forall t :: 0 <= t < j + 1 ==> (prev + [row])[t] == WithCountRank(df, df[t])
  {
    forall t | 0 <= t < j + 1
      ensures (prev + [row])[t] == WithCountRank(df, df[t])
    {
      if t < j { assert (prev + [row])[t] == prev[t]; }
    }
  }

  /** Fills in row `j`'s count and rank from the per-country counts. */
  method RankRow(df: seq<Movie>, keys: seq<string>, counts: map<string, nat>, j: int) returns (row: Movie)
    requires 0 <= j < |df|
    requires NoDuplicates(keys)
    requires forall d :: d in keys <==> d in Countries(df)
    requires forall d :: d in counts <==> d in Countries(df)
    requires forall d :: d in counts ==> counts[d] == MovieCount(df, d)
    ensures row == WithCountRank(df, df[j])
  {
    var c := df[j].country;
    assert c in Countries(df);
    var ahead := CountAhead(keys, counts, counts[c]);
    AheadFromCounts(df, keys, counts, c);
    row := df[j].(movieCount := counts[c], rankMovieCount := 1 + ahead);
  }

  lemma AheadFromCounts(df: seq<Movie>, keys: seq<string>, counts: map<string, nat>, c: string)
    requires forall d :: d in keys <==> d in Countries(df)
    requires forall d :: d in counts <==> d in Countries(df)
    requires forall d :: d in counts ==> counts[d] == MovieCount(df, d)
    requires c in counts
    ensures (set d | d in keys && counts[d] > counts[c]) == Ahead(df, c)
  {
  }

  /** A country with more movies ranks strictly better; equal counts share a
      rank. */
  lemma MinRankOrder(df: seq<Movie>, c1: string, c2: string)
    requires c1 in Countries(df)
    requires MovieCount(df, c1) > MovieCount(df, c2)
    ensures MinRank(df, c1) < MinRank(df, c2)
  {
    assert c1 in Ahead(df, c2);
    assert Ahead(df, c1) <= Ahead(df, c2);
    ProperSubsetCardinality(Ahead(df, c1), Ahead(df, c2));
  }

  /** The minimum-rank rule: exactly `rank - 1` countries rank ahead of a
      country, so after a tie the next rank skips the tied places. */
  lemma MinRankSkipsAhead(df: seq<Movie>, c: string)
    ensures |set d | d in Countries(df) && MinRank(df, d) < MinRank(df, c)| == MinRank(df, c) - 1
  {
    var better := set d | d in Countries(df) && MinRank(df, d) < MinRank(df, c);
    forall d | d in Countries(df)
      ensures d in better <==> d in Ahead(df, c)
    {
      if MovieCount(df, d) > MovieCount(df, c) {
        MinRankOrder(df, d, c);
      } else {
        assert Ahead(df, c) <= Ahead(df, d);
        SubsetCardinality(Ahead(df, c), Ahead(df, d));
      }
    }
    assert better == Ahead(df, c);
  }
}
