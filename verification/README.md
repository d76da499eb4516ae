# IMDb country and director rankings, modelled in Dafny

The Python package ranks film-producing countries and directors using the IMDb
tables (`title.basics`, `title.akas`, `title.crew`, `title.ratings`), a GDP
table, and population and country-name lookups. This project models the
package's data-processing core as pure Dafny functions and methods over
sequences of records, and proves what each step promises.

The core has these steps:

- the year-window filter (`filter_years`);
- deciding a movie's country from its alternate titles (`find_movie_regions`,
  `most_frequent_region`, `decide_region`, `get_country_name`);
- the external lookups and their fallbacks (`get_population`,
  `GDP_per_capita`, `add_GDP_with_rank`);
- the metric columns (`add_votes_CDF`, `add_population_rank`,
  `add_GDPperCapita_rank`, `add_movie_count_per_country_rank`);
- the three leaderboards (`rank_top_movies`, `cumulative_weighted_ratings`,
  `calculate_director_stats`).

Modules:

| module | file | contents |
|---|---|---|
| `Wrappers` | wrappers.dfy | `Option` |
| `Seqs` | seqs.dfy | table columns, boolean-mask filtering, repetition (join multiplicity), de-duplication, sum, mean, population variance |
| `Order` | order.dfy | Python's string order, sorted distinct keys (`groupby` order), descending sorts of reals |
| `Tables` | tables.dfy | the input records, the enriched movie row, the `'International'`, `30` and `\N` constants |
| `YearFilter` | year_filter.dfy | `filter_years` |
| `Regions` | regions.dfy | `find_movie_regions`, `most_frequent_region`, `decide_region` |
| `Lookups` | lookups.dfy | `get_country_name`, `get_population`, `GDP_per_capita`, `add_GDP_with_rank` |
| `Ranking` | ranking.dfy | votes percentile, dense rank with placeholder, minimum rank of movie counts |
| `Leaderboards` | leaderboards.dfy | `rank_top_movies`, `cumulative_weighted_ratings`, `calculate_director_stats` |

A pandas column that holds `'Unknown'` or NaN is modelled as
`Cell = Known(value) | Unknown`. The enriched table is a sequence of `Movie`
rows with every derived column present. Each `Add…` step's contract says which
column it sets and that every other column is unchanged.

The three ranking rules are:

- the votes percentile is pandas' `rank(method='average', pct=True)`. That is
  the count of smaller values plus half of one more than the number of equal
  values, all divided by the row count;
- a dense rank is one more than the number of distinct larger known values;
- a minimum rank is one more than the number of countries with strictly more
  movies.

For the dense and minimum ranks, the rule is a reference definition and the
implementation reaches the same values by another route: a sorted distinct
list with an index lookup, or a counting map with a loop. The votes
percentile, by contrast, is computed straight from its definition, so
`Ranking.AddVotesCdf`'s value clause restates it. What is proved about the
percentile is in separate lemmas: its range, its strict monotonicity, when it
equals 1, and its independence of row order.

`rank_top_movies` follows `imdb.py:133-143`. The copy in
`movie_analysis/movie_analysis.py:122-126` does not parse: the `.mean(` call on
line 124 is never closed. Every other modelled function follows
`movie_analysis/movie_analysis.py`.

## Model

| member | source | states |
|---|---|---|
| YearFilter.FilterYears | movie_analysis/movie_analysis.py:8-17 | Keeps exactly the basics rows whose year parsed to a number within `[start, end]`. Keeps exactly the title, crew and ratings rows whose id belongs to a kept basics row. Each output keeps its rows in input order with their multiplicities. |
| YearFilter.FilterYearsIdempotent | movie_analysis/movie_analysis.py:10-16 | Filtering the filtered tables again with the same window changes nothing. |
| YearFilter.WiderWindowKeepsMore | movie_analysis/movie_analysis.py:10-16 | A wider window keeps at least every row, of every table, that a narrower one keeps. |
| YearFilter.EmptyWindowKeepsNothing | movie_analysis/movie_analysis.py:10-16 | When start is after end, all four tables come out empty. |
| Regions.FindMovieRegions | movie_analysis/movie_analysis.py:20-32 | One row per (titleId, title) key, with no key repeated. A key appears iff the movie is rated and has both an original-title row and an alternate row with the same title. Its region list is the alternates' regions, repeated once per matching original row (the inner join's multiplicity), so it is never empty. |
| Regions.JoinCharacterised | movie_analysis/movie_analysis.py:25-31 | For every key, the grouped inner join equals the reference: the alternates' regions repeated once per matching original row. |
| Regions.MostFrequentRegion | movie_analysis/movie_analysis.py:45-52 | An empty list gives None. A region with a strictly larger count than every other region is returned. When the top count is shared, the result is `International`. Any result is a listed region or `International`. |
| Regions.MostFrequentRegionPermutation | movie_analysis/movie_analysis.py:48-52 | The result depends only on the region counts, so any reordering of the list gives the same answer. |
| Regions.TopTieIsInternational | movie_analysis/movie_analysis.py:50-51 | Two distinct regions that share the top count give `International`. |
| Regions.DecideOne | movie_analysis/movie_analysis.py:39-42 | The one-element shortcut agrees with the general rule: a single region is its own unique mode. |
| Regions.DecideRegion | movie_analysis/movie_analysis.py:36-43 | Rows, their order and their keys are kept. Each list is replaced by `most_frequent_region` of it. |
| Regions.DecidedRegionsAreResolved | movie_analysis/movie_analysis.py:31-43 | After `find_movie_regions`, every movie gets a region: one of its alternates' regions, or `International`. |
| Lookups.CountryName | movie_analysis/movie_analysis.py:54-58 | The lookup's name when there is a code and the lookup knows it. Otherwise `International`. |
| Lookups.TiedRegionsGiveInternational | movie_analysis/movie_analysis.py:45-58 | A tied region list is named `International`, for any country-name lookup that has no entry for the text `International` (pycountry has none). |
| Lookups.GetPopulation | movie_analysis/movie_analysis.py:74-79 | Known exactly when there is a code and the lookup has a count, and then it is that count. Otherwise Unknown. |
| Lookups.GdpPerCapita | movie_analysis/movie_analysis.py:82-85 | Unknown iff either operand is unknown. Fails iff a known GDP meets a zero population. A known result times the population gives back the GDP. |
| Lookups.AddGdpPerCapita | movie_analysis/movie_analysis.py:81-86 | Fails iff some row divides by zero. Otherwise it sets each row's `GDP/Population` to that row's quotient and changes nothing else. |
| Lookups.StripCommas | movie_analysis/movie_analysis.py:69 | The result has no comma. It keeps every other character, in order, with its multiplicity. |
| Lookups.StripCommasIdempotent | movie_analysis/movie_analysis.py:69 | Stripping twice is stripping once. |
| Lookups.ConvertGdp | movie_analysis/movie_analysis.py:69 | A missing cell stays unknown. A text cell fails iff it does not convert once its commas are removed; otherwise it is that number. |
| Lookups.RankFrom | movie_analysis/movie_analysis.py:69-70 | Numbers consecutive lines from the given start, converting each GDP cell. Fails iff some cell fails to convert. |
| Lookups.AddGdpWithRank | movie_analysis/movie_analysis.py:61-72 | Row `i` gets `rank_gdp = i + 1` and its country, whatever the GDP values are. A missing GDP cell gives an unknown GDP; a text cell gives its comma-free conversion. Fails iff the column was read as numbers (so `.str` does not apply), or a text cell does not convert. |
| Ranking.AddVotesCdf | movie_analysis/movie_analysis.py:89-92 | Each row gets the average-rank percentile of its vote count among all rows, a value in (0, 1]. Every other column and the row order are unchanged. |
| Ranking.PercentilesBounded | movie_analysis/movie_analysis.py:91 | Every percentile lies in (0, 1]. |
| Ranking.PercentileMonotone | movie_analysis/movie_analysis.py:91 | More votes give a strictly larger percentile. |
| Ranking.PercentileOneIffUniqueMax | movie_analysis/movie_analysis.py:91 | A row's percentile is exactly 1 iff its vote count is strictly larger than every other row's, in both directions. |
| Ranking.VotesCdfIgnoresRowOrder | movie_analysis/movie_analysis.py:90-91 | Two tables with the same multiset of vote counts give equal vote counts equal percentiles. So the prior sort, or any row order, does not matter. |
| Ranking.DenseRanks | movie_analysis/movie_analysis.py:98-99 | Unknown gives 30. Known `v` gives one more than the number of distinct known values above `v`. This matches the reference definition, although the body works from a sorted distinct list. |
| Ranking.DenseRankOrder | movie_analysis/movie_analysis.py:98 | A larger known value gets a strictly smaller rank. |
| Ranking.DenseRanksAreOneToCount | movie_analysis/movie_analysis.py:98 | The ranks of the known rows are exactly `1..k`, where `k` is the number of distinct known values. No rank is skipped or out of range. |
| Ranking.AddPopulationRank | movie_analysis/movie_analysis.py:95-101 | Sets only `Population_rank`. An unknown population gives 30. A known one gives its dense descending rank. The population column is kept as it was. |
| Ranking.AddGdpPerCapitaRank | movie_analysis/movie_analysis.py:104-110 | The same rule over `GDP/Population`, setting only `GDP_per_Capita_rank`. |
| Ranking.CountValues | movie_analysis/movie_analysis.py:115 | `value_counts()`: every distinct value once, with its number of occurrences. |
| Ranking.CountAhead | movie_analysis/movie_analysis.py:117 | Counts the distinct keys whose count exceeds the given one. |
| Ranking.RankRow | movie_analysis/movie_analysis.py:117-118 | A row merged with its country's count and that count's minimum rank, computed from the counting map. |
| Ranking.AddMovieCountRank | movie_analysis/movie_analysis.py:113-119 | Every row, in order, gets its country's movie count and `1 +` the number of countries with more movies. Nothing else changes. |
| Ranking.MinRankOrder | movie_analysis/movie_analysis.py:117 | More movies give a strictly better rank. |
| Ranking.MinRankSkipsAhead | movie_analysis/movie_analysis.py:117 | Exactly `rank - 1` countries rank ahead of a country, so tied counts share a rank and the next rank skips the tied places. |
| Order.SortDescending | imdb.py:135 | `sort_values(ascending=False)`: a non-increasing permutation of the input. |
| Leaderboards.RankTopMovies | imdb.py:133-143 | One row per country, in ascending order. A country is present iff it has rows and `head(X)` keeps at least one of them. Its value is the mean of its `X` best ratings. |
| Leaderboards.TopRatingsAreTheBest | imdb.py:135 | The kept ratings are some of the country's ratings, and no left-out rating beats a kept one. |
| Leaderboards.TopRatingsIgnoreRowOrder | imdb.py:135-138 | The kept ratings, and so the average, depend only on the multiset of the country's ratings, not on row order or on how the sort orders ties. |
| Leaderboards.TopAverageShrinksWithX | imdb.py:135-138 | Averaging over more top movies never raises a country's average. |
| Leaderboards.TopAverageBounds | imdb.py:135-138 | A country's average lies between any bounds on that country's own ratings, so between its lowest and highest rating. |
| Leaderboards.CumulativeWeightedRatings | movie_analysis/movie_analysis.py:140-144 | One row per country of the table, none repeated. Each holds the sum of its movies' weighted scores. Rows are ordered by that sum, largest first. |
| Leaderboards.CountryTotalAdditive | movie_analysis/movie_analysis.py:142 | A country's total over two tables put together is the sum of its totals over each. |
| Leaderboards.TopFilmsAreRankedRows | movie_analysis/movie_analysis.py:151-152 | A movie is kept iff its dense descending rank among its director's ratings is at most 20. |
| Leaderboards.TopFilmsAtLeastTwenty | movie_analysis/movie_analysis.py:149-152 | A director with at least 20 movies keeps at least 20 after the dense-rank cut. So no group is empty. |
| Leaderboards.Stat | movie_analysis/movie_analysis.py:154-163 | A listed director's row holds the statistics of their kept movies, of which there are at least 20. |
| Leaderboards.StatsFor | movie_analysis/movie_analysis.py:154-163 | One row per key with at least 20 movies, in key order. |
| Leaderboards.DirectorStats | movie_analysis/movie_analysis.py:146-164 | The intended table: one row per director with at least 20 movies, in ascending director order, and empty when there is none. The `\N` marker never appears. Each row holds the mean and the population variance of the kept ratings, each scaled by the group's mean votes percentile. |
| Leaderboards.DirectorStatsAsWritten | movie_analysis/movie_analysis.py:146-166 | The source as written: it fails (the `KeyError` on line 166) exactly when no director has 20 movies, and otherwise gives the intended table. |
| Leaderboards.FewRowsCrash | movie_analysis/movie_analysis.py:149-166 | Every table with fewer than 20 rows, the empty one included, makes the source fail. |
| Leaderboards.FewRowsGiveEmptyTable | movie_analysis/movie_analysis.py:149-164 | On those same tables, the intended result is an empty table. |
| Leaderboards.FilmsOfListedDirectors | movie_analysis/movie_analysis.py:147-150 | Rows marked `\N` never form a group. Every director with movies appears in the column that is grouped. |
| Leaderboards.DirectorStatBounds | movie_analysis/movie_analysis.py:155-158 | If the director's own films have ratings in `[0, hi]` and percentiles in `[0, 1]`, the director's scaled mean lies in `[0, hi]`. The rest of the table plays no part. |
| Leaderboards.DirectorVarianceNonNegative | movie_analysis/movie_analysis.py:155-158 | If the director's own films have non-negative percentiles, the director's scaled variance is never negative, whatever the ratings. |

## Left out

- Reading the CSV and TSV files, the encoding fallbacks of `add_GDP_with_rank`, and `main.py`'s glue: all I/O.
- The float conversions (`pd.to_numeric`, `astype(float)`) are injected: `Basic.startYear` is an already-parsed `Option<int>`, and `Lookups.AddGdpWithRank` takes a `parse` function.
- Lookups.AddGdpWithRank: the one `parse` function stands both for `read_csv`'s decision that a cell reads as a number and for `float()`. Which spellings `read_csv` reads as missing (blank, `NA`, `NaN`, …) is decided before the model: such a cell arrives as `None`.
- Numbers are exact reals. Ratings, percentiles, GDP and populations, and the sums, means, variances and quotients built from them, are computed without rounding. The program computes in binary floating point, so its results can differ from the model's by rounding: three ratings of 1.6 sum to 4.800000000000001 in floats, and 1.0/49*49 gives 0.9999999999999999. The lines below name the statements that hold for the program only up to that rounding.
- Leaderboards.TopAverageBounds: holds in exact arithmetic. In floats, the mean of three ratings of 1.6 is 1.6000000000000003, just above the highest rating.
- Leaderboards.TopAverageShrinksWithX: holds in exact arithmetic. With float rounding, a longer prefix can come out a rounding step above a shorter one.
- Lookups.GdpPerCapita: the clause that a known quotient times the population gives back the GDP is exact only in real arithmetic. In floats it holds up to rounding.
- Leaderboards.CountryTotalAdditive: holds in exact arithmetic. Float addition is not associative, so the program's per-country sums in `Leaderboards.CumulativeWeightedRatings` can depend on row order in the last bits.
- Leaderboards.DirectorStatBounds: the bounds on the scaled mean hold in exact arithmetic, and in floats only up to rounding.
- `pycountry` and `pypopulation` are injected as partial functions (`string -> Option<…>`). Their data is not part of this model.
- `weighted_ranking`'s square-root formula is not modelled: `Leaderboards.CumulativeWeightedRatings` takes the per-movie score as a parameter. Dafny's reals have no square root.
- The director `Rating` column (`mean - sqrt(variance)`, movie_analysis.py:166) is left out for the same reason.
- The `fillna(6)` fallback for the variance (movie_analysis.py:165) is not modelled. `Leaderboards.TopFilmsAtLeastTwenty` shows that every group has at least 20 movies, so the variance is never NaN and the fallback never fires.
- Regions.FindMovieRegions: the order of the result rows is not stated. pandas sorts the group keys, while the model keeps first-occurrence order. Nothing downstream depends on it, because `decide_region` works row by row.
- Leaderboards.CumulativeWeightedRatings: the relative order of countries with equal sums is not stated. pandas' default sort is not stable.
- The placeholder rank 30 for an unknown population or GDP per capita cannot be told apart from a genuine rank 30. The model states both cases but claims nothing about telling them apart.
- Directors are compared as whole text. A multi-director cell such as `nm1,nm2` is one key, as in the source.
- A zero population stops the whole run, because Python raises `ZeroDivisionError`. `Lookups.AddGdpPerCapita` returns `None` for the whole table then; the error itself is not modelled.
- `Leaderboards.RankTopMovies` follows `imdb.py:133-143`, because `movie_analysis/movie_analysis.py:124` does not parse.

## Findings

| source | as written | input that shows it | evidently intended | confidence | as-written member | corrected member |
|---|---|---|---|---|---|---|
| movie_analysis/movie_analysis.py:164-166 | When no director has 20 movies, `director_stats_list` is empty and `pd.DataFrame([])` has no columns. Reading `director_stats_df['mean_rating']` on line 166 then raises `KeyError`, and `imdb.py:205` raises on `['rating_variance']` | any table with fewer than 20 rows, e.g. the empty table | an empty statistics table | medium, not executed | Leaderboards.DirectorStatsAsWritten, Leaderboards.FewRowsCrash | Leaderboards.DirectorStats, Leaderboards.FewRowsGiveEmptyTable |
