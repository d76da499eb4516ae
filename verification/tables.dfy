/** The rows of the IMDb tables and of the enriched table the pipeline builds,
    with the sentinels the pipeline writes into them. Each table is a
    sequence of these records, in file order. */
module Tables {
  import opened Wrappers
  import opened Seqs

  /** The country name given to ambiguous or unresolvable regions. */
  const International: string := "International"

  /** The rank written for an unknown population or GDP per capita. */
  const UnknownRank: int := 30

  /** The `title.crew` marker for "no director recorded": a backslash and `N`. */
  const NoDirector: string := "\\N"

  /** A numeric column that pandas holds either as a number or as the text
      `'Unknown'` (a NaN after `to_numeric(errors='coerce')`). */
  datatype Cell = Known(value: real) | Unknown

  /** A `title.basics` row; `startYear` is the year after numeric coercion,
      `None` when the text did not parse as a number. */
  datatype Basic = Basic(tconst: string, startYear: Option<int>)

  /** A `title.akas` row: one title of a movie in one region. */
  datatype Aka = Aka(titleId: string, title: string, region: string, isOriginalTitle: int)

  /** A `title.crew` row; `directors` is compared as one opaque text. */
  datatype Crew = Crew(tconst: string, directors: string)

  /** A `title.ratings` row. */
  datatype Rating = Rating(tconst: string, averageRating: real, numVotes: nat)

  /** A row of the enriched table: a movie with its resolved region and
      country, its economic data, and the derived metric columns. */
  datatype Movie = Movie(
    titleId: string,
    region: Option<string>,
    country: string,
    gdp: Cell,
    rankGdp: int,
    averageRating: real,
    numVotes: nat,
    directors: string,
    population: Cell,
    gdpPerCapita: Cell,
    cdfVotes: real,
    populationRank: int,
    gdpPerCapitaRank: int,
    movieCount: nat,
    rankMovieCount: int)

  /** The `country_name` column. */
  function Countries(df: seq<Movie>): seq<string> {
    Column(df, (m: Movie) => m.country)
  }
}
