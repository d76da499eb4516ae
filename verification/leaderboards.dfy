/** The three leaderboards the pipeline produces from the enriched table:
    each country's average over its best-rated movies, each country's
    cumulative weighted rating, and the director statistics. */
module Leaderboards {
  import opened Wrappers
  import opened Seqs
  import opened Order
  import opened Tables
  import Ranking

  /** The `averageRating` column. */
  function Ratings(rows: seq<Movie>): seq<real> {
    Column(rows, (m: Movie) => m.averageRating)
  }

  /** The `CDF_votes` column. */
  function Cdfs(rows: seq<Movie>): seq<real> {
    Column(rows, (m: Movie) => m.cdfVotes)
  }

  // ---------------------------------------------------------------------------
  // Average of the top X movies per country (rank_top_movies)
  // ---------------------------------------------------------------------------

  function InCountry(c: string): Movie -> bool {
    (m: Movie) => m.country == c
  }

  /** The rows of country `c`, in table order: one `groupby` group. */
  function CountryRows(df: seq<Movie>, c: string): seq<Movie> {
    Filter(df, InCountry(c))
  }

  /** How many rows `head(x)` keeps of a group of `size` rows: the first `x`,
      or, for a negative `x`, all but the last `-x`. */
  function HeadCount(x: int, size: nat): (k: nat)
    ensures k <= size
  {
    if x >= 0 then (if x < size then x else size)
    else if size + x > 0 then size + x else 0
  }

  /** The ratings `head(x)` keeps of country `c` once the table is sorted by
      rating, best first. */
  function TopRatings(df: seq<Movie>, c: string, x: int): (r: seq<real>)
    ensures |r| == HeadCount(x, |CountryRows(df, c)|)
  {
    var s := SortDescending(Ratings(CountryRows(df, c)));
    s[..HeadCount(x, |s|)]
  }

  /** A row of `rank_top_movies`' result. */
  datatype CountryAverage = CountryAverage(country: string, avgRating: real)

  /** The `country_name` column of a result. */
  function AverageCountries(r: seq<CountryAverage>): seq<string> {
    Column(r, (a: CountryAverage) => a.country)
  }

  /** One result row per key whose kept ratings `tops` are not empty, in key
      order. */
  function AveragesFor(keys: seq<string>, tops: string -> seq<real>): (r: seq<CountryAverage>)
    requires StrictlyAscending(keys)
    ensures StrictlyAscending(AverageCountries(r))
    ensures forall c :: c in AverageCountries(r) <==> c in keys && |tops(c)| > 0
    ensures forall i :: 0 <= i < |r| ==> |tops(r[i].country)| > 0 && r[i].avgRating == Mean(tops(r[i].country))
  {
    if |keys| == 0 then []
    else
      AscendingTail(keys);
      var rest := AveragesFor(keys[1..], tops);
      var top := tops(keys[0]);
      if |top| == 0 then rest
      else
        var row := CountryAverage(keys[0], Mean(top));
        assert AverageCountries([row] + rest) == [keys[0]] + AverageCountries(rest);
        PrependAscending(keys[0], AverageCountries(rest));
        [row] + rest
  }

  /** Each country's kept ratings, as a function of the country. */
  function TopsOf(df: seq<Movie>, x: int): string -> seq<real> {
    (c: string) => TopRatings(df, c, x)
  }

  /** `rank_top_movies`: for every country in ascending name order, the mean
      of its `x` best ratings; a country `head(x)` keeps nothing of is left
      out. */
  function RankTopMovies(df: seq<Movie>, x: int): (r: seq<CountryAverage>)
    ensures StrictlyAscending(AverageCountries(r))
    ensures forall c :: c in AverageCountries(r) <==> c in Countries(df) && HeadCount(x, |CountryRows(df, c)|) > 0
    ensures forall i :: 0 <= i < |r| ==>
      |TopRatings(df, r[i].country, x)| > 0 && r[i].avgRating == Mean(TopRatings(df, r[i].country, x))
  {
    AveragesFor(SortedKeys(Countries(df)), TopsOf(df, x))
  }

  /** The kept ratings are some of the country's ratings, and none of those
      left out beats any kept one. */
  lemma TopRatingsAreTheBest(df: seq<Movie>, c: string, x: int)
    ensures multiset(TopRatings(df, c, x)) <= multiset(Ratings(CountryRows(df, c)))
    ensures forall a, b :: (a in TopRatings(df, c, x) &&
      b in multiset(Ratings(CountryRows(df, c))) - multiset(TopRatings(df, c, x))) ==> b <= a
  {
    var u := Ratings(CountryRows(df, c));
    var s := SortDescending(u);
    PrefixDominates(s, HeadCount(x, |s|));
  }

  /** The average depends only on the country's ratings, not on the order of
      the rows (the sort's tie order included). */
  lemma TopRatingsIgnoreRowOrder(df1: seq<Movie>, df2: seq<Movie>, c: string, x: int)
    requires multiset(Ratings(CountryRows(df1, c))) == multiset(Ratings(CountryRows(df2, c)))
    ensures TopRatings(df1, c, x) == TopRatings(df2, c, x)
  {
    NonIncreasingUnique(SortDescending(Ratings(CountryRows(df1, c))), SortDescending(Ratings(CountryRows(df2, c))));
  }

  lemma MeanStep(total: real, v: real, n: real)
    requires n > 0.0 && v * n <= total
    ensures (total + v) / (n + 1.0) <= total / n
  {
    var a := total / n;
    assert total == a * n;
    assert v <= a;
    assert total + v <= a * (n + 1.0);
  }

  /** Adding the next-best element to a best-first prefix never raises its
      mean. */
  lemma PrefixMeanStep(s: seq<real>, k: int)
    requires NonIncreasing(s)
    requires 0 < k < |s|
    ensures Mean(s[..k + 1]) <= Mean(s[..k])
  {
    var p, v := s[..k], s[k];
    assert s[..k + 1] == p + [v];
    SumConcat(p, [v]);
    assert Sum([v]) == v;
    assert forall y :: y in p ==> v <= y <= s[0] by {
      forall y | y in p
        ensures v <= y <= s[0]
      {
        var j :| 0 <= j < k && p[j] == y;
        assert s[j] == y;
      }
    }
    SumBounds(p, v, s[0]);
    MeanStep(Sum(p), v, k as real);
  }

  lemma {:induction false} PrefixMeanNonIncreasing(s: seq<real>, j: int, k: int)
    requires NonIncreasing(s)
    requires 0 < j <= k <= |s|
    ensures Mean(s[..k]) <= Mean(s[..j])
    decreases k - j
  {
    if j < k {
      PrefixMeanStep(s, j);
      PrefixMeanNonIncreasing(s, j + 1, k);
    }
  }

  /** Averaging over more top movies never raises a country's average. */
  lemma TopAverageShrinksWithX(df: seq<Movie>, c: string, x: int, y: int)
    requires 0 < HeadCount(x, |CountryRows(df, c)|) <= HeadCount(y, |CountryRows(df, c)|)
    ensures Mean(TopRatings(df, c, y)) <= Mean(TopRatings(df, c, x))
  {
    var s := SortDescending(Ratings(CountryRows(df, c)));
    PrefixMeanNonIncreasing(s, HeadCount(x, |s|), HeadCount(y, |s|));
  }

  /** A country's average lies between its own lowest and highest rating:
      any bounds on that country's ratings bound the average. */
  lemma TopAverageBounds(df: seq<Movie>, c: string, x: int, lo: real, hi: real)
    requires forall m :: m in CountryRows(df, c) ==> lo <= m.averageRating <= hi
    requires |TopRatings(df, c, x)| > 0
    ensures lo <= Mean(TopRatings(df, c, x)) <= hi
  {
    TopRatingsAreTheBest(df, c, x);
    forall a | a in TopRatings(df, c, x)
      ensures lo <= a <= hi
    {
      assert a in multiset(Ratings(CountryRows(df, c)));
      var rows := CountryRows(df, c);
      var i :| 0 <= i < |rows| && Ratings(rows)[i] == a;
      assert rows[i] in rows;
    }
    MeanBounds(TopRatings(df, c, x), lo, hi);
  }

  // ---------------------------------------------------------------------------
  // Cumulative weighted rating per country (cumulative_weighted_ratings)
  // ---------------------------------------------------------------------------

  /** The weights of some rows under the per-movie score. */
  function Weights(rows: seq<Movie>, weight: Movie -> real): seq<real> {
    Column(rows, weight)
  }

  /** The sum of a country's per-movie scores: `groupby(...).sum()`. */
  function CountryTotal(df: seq<Movie>, weight: Movie -> real, c: string): real {
    Sum(Weights(CountryRows(df, c), weight))
  }

  /** A row of `cumulative_weighted_ratings`' result. */
  datatype CountryScore = CountryScore(country: string, weightedRating: real)

  function ScoreCountries(r: seq<CountryScore>): seq<string> {
    Column(r, (a: CountryScore) => a.country)
  }

  /** Keys in order of non-increasing score. */
  predicate DescendingBy(s: seq<string>, score: string -> real) {
    forall i, j :: 0 <= i < j < |s| ==> score(s[i]) >= score(s[j])
  }

  lemma HeadIsBest(s: seq<string>, score: string -> real)
    requires DescendingBy(s, score) && |s| > 0
    ensures forall y :: y in s ==> score(s[0]) >= score(y)
  {
    forall y | y in s
      ensures score(s[0]) >= score(y)
    {
      var j :| 0 <= j < |s| && s[j] == y;
    }
  }

  lemma PrependDescending(x: string, s: seq<string>, score: string -> real)
    requires DescendingBy(s, score)
    requires forall y :: y in s ==> score(x) >= score(y)
    ensures DescendingBy([x] + s, score)
  {
    forall i, j | 0 <= i < j < |s| + 1
      ensures score(([x] + s)[i]) >= score(([x] + s)[j])
    {
      assert ([x] + s)[j] == s[j - 1];
      assert s[j - 1] in s;
      if i > 0 { assert ([x] + s)[i] == s[i - 1]; }
    }
  }

  /** Inserts a key after every key with a larger or equal score. */
  function InsertByScore(s: seq<string>, x: string, score: string -> real): (r: seq<string>)
    requires DescendingBy(s, score) && NoDuplicates(s) && x !in s
    ensures DescendingBy(r, score) && NoDuplicates(r)
    ensures forall y :: y in r <==> y in s || y == x
  {
    if |s| == 0 then [x]
    else if score(x) > score(s[0]) then
      HeadIsBest(s, score);
      PrependDescending(x, s, score);
      NoDuplicatesCons(x, s);
      [x] + s
    else
      HeadIsBest(s, score);
      NoDuplicatesTail(s);
      assert DescendingBy(s[1..], score);
      var rest := InsertByScore(s[1..], x, score);
      assert forall y :: y in s <==> y == s[0] || y in s[1..];
      PrependDescending(s[0], rest, score);
      NoDuplicatesCons(s[0], rest);
      [s[0]] + rest
  }

  /** Sorts distinct keys by score, largest first. */
  function SortByScore(s: seq<string>, score: string -> real): (r: seq<string>)
    requires NoDuplicates(s)
    ensures DescendingBy(r, score) && NoDuplicates(r)
    ensures forall y :: y in r <==> y in s
  {
    if |s| == 0 then []
    else
      NoDuplicatesTail(s);
      assert forall y :: y in s <==> y == s[0] || y in s[1..];
      InsertByScore(SortByScore(s[1..], score), s[0], score)
  }

  /** Each country's total, as a function of the country. */
  function TotalOf(df: seq<Movie>, weight: Movie -> real): string -> real {
    (c: string) => CountryTotal(df, weight, c)
  }

  /** `cumulative_weighted_ratings`: one row per country holding the sum of its
      movies' scores, largest sum first. `weight` is the per-movie score
      (`weighted_ranking`). */
  function CumulativeWeightedRatings(df: seq<Movie>, weight: Movie -> real): (r: seq<CountryScore>)
    ensures NoDuplicates(ScoreCountries(r))
    ensures forall c :: c in ScoreCountries(r) <==> c in Countries(df)
    ensures forall i :: 0 <= i < |r| ==> r[i].weightedRating == CountryTotal(df, weight, r[i].country)
    ensures forall i, j :: 0 <= i < j < |r| ==> r[i].weightedRating >= r[j].weightedRating
  {
    var keys := SortedKeys(Countries(df));
    AscendingHasNoDuplicates(keys);
    var order := SortByScore(keys, TotalOf(df, weight));
    var r := seq(|order|, i requires 0 <= i < |order| => CountryScore(order[i], TotalOf(df, weight)(order[i])));
    assert ScoreCountries(r) == order;
    r
  }

  /** Totals add up over tables: the total of two tables put together is the
      sum of their totals. */
  lemma CountryTotalAdditive(df1: seq<Movie>, df2: seq<Movie>, weight: Movie -> real, c: string)
    ensures CountryTotal(df1 + df2, weight, c) == CountryTotal(df1, weight, c) + CountryTotal(df2, weight, c)
  {
    FilterConcat(df1, df2, InCountry(c));
    var a, b := CountryRows(df1, c), CountryRows(df2, c);
    assert Weights(a + b, weight) == Weights(a, weight) + Weights(b, weight);
    SumConcat(Weights(a, weight), Weights(b, weight));
  }

  // ---------------------------------------------------------------------------
  // Director statistics (calculate_director_stats)
  // ---------------------------------------------------------------------------

  /** The least number of movies a director needs. */
  const MinFilms: nat := 20

  /** The number of distinct best ratings of a director that are kept. */
  const TopDistinct: nat := 20

  function HasDirector(m: Movie): bool {
    m.directors != NoDirector
  }

  function ByDirector(d: string): Movie -> bool {
    (m: Movie) => m.directors == d
  }

  /** The rows with a director recorded. */
  function Directed(df: seq<Movie>): seq<Movie> {
    Filter(df, HasDirector)
  }

  /** The `directors` column. */
  function DirectorColumn(rows: seq<Movie>): seq<string> {
    Column(rows, (m: Movie) => m.directors)
  }

  /** A director's movies, in table order. */
  function Films(df: seq<Movie>, d: string): seq<Movie> {
    Filter(Directed(df), ByDirector(d))
  }

  /** The ratings of some rows as a column of known values. */
  function RatingCells(rows: seq<Movie>): seq<Cell> {
    Column(rows, (m: Movie) => Known(m.averageRating))
  }

  /** The dense rank of rating `v` among the ratings of `rows`, best first. */
  function DenseRankIn(rows: seq<Movie>, v: real): int {
    1 + |Ranking.Greater(RatingCells(rows), v)|
  }

  function AmongTop(rows: seq<Movie>): Movie -> bool {
    (m: Movie) => DenseRankIn(rows, m.averageRating) <= TopDistinct
  }

  /** The movies of a group whose dense rating rank is at most 20. */
  function TopFilms(rows: seq<Movie>): seq<Movie> {
    Filter(rows, AmongTop(rows))
  }

  /** The kept movies are those whose `rank("dense", ascending=False)` within
      the group is at most 20. */
  lemma TopFilmsAreRankedRows(rows: seq<Movie>, i: int)
    requires 0 <= i < |rows|
    ensures rows[i] in TopFilms(rows) <==> Ranking.DenseRanks(RatingCells(rows))[i] <= TopDistinct
  {
    assert rows[i] in rows;
  }

  /** With at most 20 distinct ratings every movie is among the top ones. */
  lemma FewValuesKeepAll(rows: seq<Movie>, d: seq<real>)
    requires d == DistinctDescending(Ranking.KnownValues(RatingCells(rows)))
    requires |d| <= TopDistinct
    ensures TopFilms(rows) == rows
  {
    var cells := RatingCells(rows);
    Ranking.RanksAreGreaterCounts(cells, d);
    forall m | m in rows
      ensures AmongTop(rows)(m)
    {
      var v := m.averageRating;
      var i :| 0 <= i < |rows| && rows[i] == m;
      assert cells[i] == Known(v);
      assert v in d;
    }
    FilterKeepsAll(rows, AmongTop(rows));
  }

  /** The `k`-th best distinct rating, `k < 20`, is held by a kept movie. */
  lemma BestValueKept(rows: seq<Movie>, d: seq<real>, k: int)
    requires d == DistinctDescending(Ranking.KnownValues(RatingCells(rows)))
    requires 0 <= k < |d| && k < TopDistinct
    ensures d[k] in Ratings(TopFilms(rows))
  {
    var cells := RatingCells(rows);
    var v := d[k];
    Ranking.RanksAreGreaterCounts(cells, d);
    assert IndexOf(d, v) == k;
    assert Known(v) in cells;
    var i :| 0 <= i < |cells| && cells[i] == Known(v);
    assert AmongTop(rows)(rows[i]);
    var top := TopFilms(rows);
    assert rows[i] in top;
    var j :| 0 <= j < |top| && top[j] == rows[i];
    assert Ratings(top)[j] == v;
  }

  /** A director with at least 20 movies keeps at least 20: either all the
      ratings are among the 20 best distinct ones, or each of those 20 values
      is held by a kept movie. So no group is empty and its variance is never
      NaN. */
  lemma TopFilmsAtLeastTwenty(rows: seq<Movie>)
    requires |rows| >= MinFilms
    ensures |TopFilms(rows)| >= TopDistinct
  {
    var d := DistinctDescending(Ranking.KnownValues(RatingCells(rows)));
    if |d| <= TopDistinct {
      FewValuesKeepAll(rows, d);
    } else {
      var best := d[..TopDistinct];
      var kept := Ratings(TopFilms(rows));
      forall v | v in best
        ensures v in kept
      {
        var k :| 0 <= k < TopDistinct && best[k] == v;
        BestValueKept(rows, d, k);
      }
      assert NoDuplicates(best);
      CardinalityOfDistinct(best);
      SubsetCardinality(set v | v in best, set v | v in kept);
      CardinalityOfElements(kept);
    }
  }

  /** A row of `calculate_director_stats`' result. */
  datatype DirectorStat = DirectorStat(director: string, meanRating: real, ratingVariance: real)

  function StatDirectors(r: seq<DirectorStat>): seq<string> {
    Column(r, (s: DirectorStat) => s.director)
  }

  /** The statistics of a group of kept movies: the mean and the population
      variance (`ddof=0`) of their ratings, each multiplied by the mean votes
      percentile of the group. */
  function StatOf(d: string, top: seq<Movie>): (s: DirectorStat)
    requires |top| > 0
    ensures s.director == d
  {
    var cdf := Mean(Cdfs(top));
    DirectorStat(d, Mean(Ratings(top)) * cdf, PopulationVariance(Ratings(top)) * cdf)
  }

  /** One director's row: the statistics of their kept movies, which are
      never fewer than 20. */
  function Stat(df: seq<Movie>, d: string): (s: DirectorStat)
    requires |Films(df, d)| >= MinFilms
    ensures |TopFilms(Films(df, d))| >= TopDistinct
    ensures s == StatOf(d, TopFilms(Films(df, d)))
  {
    TopFilmsAtLeastTwenty(Films(df, d));
    StatOf(d, TopFilms(Films(df, d)))
  }

  /** One result row per key with at least 20 movies, in key order. */
  function StatsFor(df: seq<Movie>, keys: seq<string>): (r: seq<DirectorStat>)
    requires StrictlyAscending(keys)
    ensures StrictlyAscending(StatDirectors(r))
    ensures forall d :: d in StatDirectors(r) <==> d in keys && |Films(df, d)| >= MinFilms
    ensures forall i :: 0 <= i < |r| ==> |Films(df, r[i].director)| >= MinFilms && r[i] == Stat(df, r[i].director)
  {
    if |keys| == 0 then []
    else
      AscendingTail(keys);
      var rest := StatsFor(df, keys[1..]);
      if |Films(df, keys[0])| < MinFilms then rest
      else
        var row := Stat(df, keys[0]);
        assert StatDirectors([row] + rest) == [keys[0]] + StatDirectors(rest);
        PrependAscending(keys[0], StatDirectors(rest));
        [row] + rest
  }

  /** `calculate_director_stats` as intended: one row for every director with
      at least 20 movies, in ascending order of director; a missing director
      is never one of them. When no director qualifies the table is empty. */
  function DirectorStats(df: seq<Movie>): (r: seq<DirectorStat>)
    ensures StrictlyAscending(StatDirectors(r))
    ensures forall d :: d in StatDirectors(r) <==> |Films(df, d)| >= MinFilms
    ensures NoDirector !in StatDirectors(r)
    ensures forall i :: 0 <= i < |r| ==> |Films(df, r[i].director)| >= MinFilms && r[i] == Stat(df, r[i].director)
  {
    var keys := SortedKeys(DirectorColumn(Directed(df)));
    FilmsOfListedDirectors(df);
    StatsFor(df, keys)
  }

  /** `calculate_director_stats` as written: when no director qualifies, the
      list of rows is empty, the frame built from it has no columns, and
      reading its `mean_rating` column raises `KeyError` (`None`). Otherwise
      the result is the intended table. */
  function DirectorStatsAsWritten(df: seq<Movie>): (r: Option<seq<DirectorStat>>)
    ensures r.None? <==> forall d :: |Films(df, d)| < MinFilms
    ensures r.Some? ==> r.value == DirectorStats(df)
  {
    var table := DirectorStats(df);
    if |table| == 0 then None
    else
      assert table[0].director in StatDirectors(table);
      Some(table)
  }

  /** Every table with fewer than 20 rows (the empty table included) makes
      the source fail: no director can reach 20 movies. */
  lemma FewRowsCrash(df: seq<Movie>)
    requires |df| < MinFilms
    ensures DirectorStatsAsWritten(df) == None
  {
    FewRowsHaveFewFilms(df);
  }

  /** The intended behaviour on the same tables: an empty result. */
  lemma FewRowsGiveEmptyTable(df: seq<Movie>)
    requires |df| < MinFilms
    ensures DirectorStats(df) == []
  {
    FewRowsHaveFewFilms(df);
    var r := DirectorStats(df);
    var ds := StatDirectors(r);
    assert (set d | d in ds) == {};
    AscendingHasNoDuplicates(ds);
    CardinalityOfDistinct(ds);
  }

  lemma FewRowsHaveFewFilms(df: seq<Movie>)
    ensures forall d :: |Films(df, d)| <= |df|
  {
    forall d
      ensures |Films(df, d)| <= |df|
    {
      FilterLength(df, HasDirector);
      FilterLength(Directed(df), ByDirector(d));
    }
  }

  /** A director with movies appears in the `directors` column of the
      directed rows; the missing-director marker has none. */
  lemma FilmsOfListedDirectors(df: seq<Movie>)
    ensures |Films(df, NoDirector)| == 0
    ensures forall d :: |Films(df, d)| > 0 ==> d in DirectorColumn(Directed(df))
  {
    var dir := Directed(df);
    FilterKeepsNone(dir, ByDirector(NoDirector));
    forall d | |Films(df, d)| > 0
      ensures d in DirectorColumn(dir)
    {
      var m := Films(df, d)[0];
      assert m in Films(df, d);
      var i :| 0 <= i < |dir| && dir[i] == m;
      assert DirectorColumn(dir)[i] == d;
    }
  }

  lemma ColumnsWithin(rows: seq<Movie>, hi: real)
    requires forall m :: m in rows ==> 0.0 <= m.averageRating <= hi && 0.0 <= m.cdfVotes <= 1.0
    ensures forall x :: x in Ratings(rows) ==> 0.0 <= x <= hi
    ensures forall x :: x in Cdfs(rows) ==> 0.0 <= x <= 1.0
  {
    forall x | x in Ratings(rows)
      ensures 0.0 <= x <= hi
    {
      var i :| 0 <= i < |rows| && Ratings(rows)[i] == x;
      assert rows[i] in rows;
    }
    forall x | x in Cdfs(rows)
      ensures 0.0 <= x <= 1.0
    {
      var i :| 0 <= i < |rows| && Cdfs(rows)[i] == x;
      assert rows[i] in rows;
    }
  }

  /** With each of the director's own films rated in `[0, hi]` and with
      percentiles in `[0, 1]` (as the votes percentile column always is), the
      director's scaled mean lies in `[0, hi]`. */
  lemma DirectorStatBounds(df: seq<Movie>, hi: real, d: string)
    requires |Films(df, d)| >= MinFilms
    requires forall i :: 0 <= i < |Films(df, d)| ==> 0.0 <= Films(df, d)[i].averageRating <= hi && 0.0 <= Films(df, d)[i].cdfVotes <= 1.0
    ensures 0.0 <= Stat(df, d).meanRating <= hi
  {
    TopFilmsAtLeastTwenty(Films(df, d));
    GroupMeanBounds(d, TopFilms(Films(df, d)), hi);
  }

  lemma GroupMeanBounds(d: string, top: seq<Movie>, hi: real)
    requires |top| > 0
    requires forall m :: m in top ==> 0.0 <= m.averageRating <= hi && 0.0 <= m.cdfVotes <= 1.0
    ensures 0.0 <= StatOf(d, top).meanRating <= hi
  {
    ColumnsWithin(top, hi);
    MeanBounds(Ratings(top), 0.0, hi);
    MeanBounds(Cdfs(top), 0.0, 1.0);
    ScaledBounds(Mean(Ratings(top)), Mean(Cdfs(top)), hi);
  }

  /** The scaled variance of a listed director is never negative, whatever the
      ratings, as long as the director's percentiles are not. */
  lemma DirectorVarianceNonNegative(df: seq<Movie>, d: string)
    requires forall m :: m in Films(df, d) ==> 0.0 <= m.cdfVotes
    requires |Films(df, d)| >= MinFilms
    ensures 0.0 <= Stat(df, d).ratingVariance
  {
    TopFilmsAtLeastTwenty(Films(df, d));
    GroupVarianceNonNegative(d, TopFilms(Films(df, d)));
  }

  lemma GroupVarianceNonNegative(d: string, top: seq<Movie>)
    requires |top| > 0
    requires forall m :: m in top ==> 0.0 <= m.cdfVotes
    ensures 0.0 <= StatOf(d, top).ratingVariance
  {
    var cdfs := Cdfs(top);
    forall x | x in cdfs
      ensures 0.0 <= x
    {
      var i :| 0 <= i < |top| && cdfs[i] == x;
      assert top[i] in top;
    }
    SumNonNegative(cdfs);
    var v := PopulationVariance(Ratings(top));
    assert 0.0 <= Mean(cdfs);
    assert 0.0 <= v * Mean(cdfs);
  }

  lemma ScaledBounds(a: real, b: real, hi: real)
    requires 0.0 <= a <= hi && 0.0 <= b <= 1.0
    ensures 0.0 <= a * b <= hi
  {
    assert a * b <= a * 1.0;
  }
}
