/** The external reference data and its fallbacks: the country-name and
    population lookups (injected as partial functions, standing for pycountry
    and pypopulation), GDP per capita, and the GDP table's positional rank. */
module Lookups {
  import opened Wrappers
  import opened Seqs
  import opened Tables
  import Regions

  /** `get_country_name`: the lookup's name for the region code, or
      `International` when there is no code or the lookup finds nothing. */
  function CountryName(names: string -> Option<string>, code: Option<string>): (r: string)
    ensures code.Some? && names(code.value).Some? ==> r == names(code.value).value
    ensures code.None? || names(code.value).None? ==> r == International
  {
    match code
    case None => International
    case Some(c) => names(c).GetOr(International)
  }

  /** A region list whose top count is shared never names a country, whatever
      the name lookup holds, as long as it has no entry for `International`. */
  lemma TiedRegionsGiveInternational(names: string -> Option<string>, lst: seq<string>, g: string, h: string)
    requires names(International).None?
    requires g in lst && h in lst && g != h
    requires multiset(lst)[g] == multiset(lst)[h]
    requires forall x :: x in lst ==> multiset(lst)[x] <= multiset(lst)[g]
    ensures CountryName(names, Regions.MostFrequentRegion(lst)) == International
  {
    Regions.TopTieIsInternational(lst, g, h);
  }

  /** `get_population`: the looked-up count, or `Unknown` when there is no
      code or the lookup has no entry (or raises). */
  function GetPopulation(populations: string -> Option<nat>, code: Option<string>): (r: Cell)
    ensures r.Known? <==> code.Some? && populations(code.value).Some?
    ensures r.Known? ==> r.value == populations(code.value).value as real
  {
    match code
    case None => Unknown
    case Some(c) =>
      match populations(c)
      case None => Unknown
      case Some(n) => Known(n as real)
  }

  /** One row of `GDP_per_capita`. `Unknown` propagates; a known GDP over a
      known zero population raises `ZeroDivisionError` in the source, which
      ends the run and is `None` here. A known quotient times the population
      gives back the GDP. */
  function GdpPerCapita(gdp: Cell, population: Cell): (r: Option<Cell>)
    ensures r.None? <==> gdp.Known? && population == Known(0.0)
    ensures r == Some(Unknown) <==> gdp.Unknown? || population.Unknown?
    ensures r.Some? && r.value.Known? ==> r.value.value * population.value == gdp.value
  {
    if gdp.Unknown? || population.Unknown? then Some(Unknown)
    else if population.value == 0.0 then None
    else Some(Known(gdp.value / population.value))
  }

  /** `GDP_per_capita` over the table: fails when any row divides by zero,
      otherwise sets the `GDP/Population` column of every row and nothing
      else. */
  function AddGdpPerCapita(df: seq<Movie>): (r: Option<seq<Movie>>)
    ensures r.None? <==> exists i :: 0 <= i < |df| && GdpPerCapita(df[i].gdp, df[i].population).None?
    ensures r.Some? ==> |r.value| == |df|
    ensures r.Some? ==> forall i :: 0 <= i < |df| ==>
      GdpPerCapita(df[i].gdp, df[i].population) == Some(r.value[i].gdpPerCapita) &&
      r.value[i] == df[i].(gdpPerCapita := r.value[i].gdpPerCapita)
  {
    if exists i :: 0 <= i < |df| && GdpPerCapita(df[i].gdp, df[i].population).None? then None
    else Some(seq(|df|, i requires 0 <= i < |df| => df[i].(gdpPerCapita := GdpPerCapita(df[i].gdp, df[i].population).value)))
  }

  function NotComma(c: char): bool {
    c != ','
  }

  /** `str.replace(',', '')`: the text with every comma removed and every
      other character kept, in order. */
  function StripCommas(s: string): (r: string)
    ensures ',' !in r
    ensures IsSubsequence(r, s)
    ensures forall c {:trigger multiset(r)[c]} :: c != ',' ==> multiset(r)[c] == multiset(s)[c]
  {
    Filter(s, NotComma)
  }

  /** Removing commas twice is removing them once. */
  lemma StripCommasIdempotent(s: string)
    ensures StripCommas(StripCommas(s)) == StripCommas(s)
  {
    FilterKeepsAll(StripCommas(s), NotComma);
  }

  /** A row of the GDP file: its own `Rank` column, the country and the GDP
      cell as `read_csv` leaves it, `None` when the cell was read as missing
      (NaN) and otherwise its text with thousands separators. */
  datatype GdpLine = GdpLine(rank: string, country: string, gdpText: Option<string>)

  /** A row of `add_GDP_with_rank`'s output (the `Rank` column is dropped);
      a missing GDP cell stays unknown. */
  datatype GdpEntry = GdpEntry(country: string, gdp: Cell, rankGdp: int)

  /** `read_csv` gives the GDP column a numeric type when it has rows and every
      cell present reads as a number: no cell then holds text, and `.str`
      fails with `AttributeError`. */
  predicate NumericColumn(lines: seq<GdpLine>, parse: string -> Option<real>) {
    |lines| > 0 &&
    forall i :: 0 <= i < |lines| && lines[i].gdpText.Some? ==> parse(lines[i].gdpText.value).Some?
  }

  /** `.str.replace(',', '').astype(float)` on one cell of a text column: a
      missing cell stays missing, a text converts once its commas are removed,
      and `None` is the `ValueError` of a text that does not convert. */
  function ConvertGdp(cell: Option<string>, parse: string -> Option<real>): (r: Option<Cell>)
    ensures cell.None? ==> r == Some(Unknown)
    ensures cell.Some? ==> (r.None? <==> parse(StripCommas(cell.value)).None?)
    ensures cell.Some? && r.Some? ==> r.value == Known(parse(StripCommas(cell.value)).value)
  {
    match cell
    case None => Some(Unknown)
    case Some(t) =>
      match parse(StripCommas(t))
      case None => None
      case Some(g) => Some(Known(g))
  }

  /** Numbers the rows from `first` on, failing if any GDP text does not
      convert. */
  function RankFrom(lines: seq<GdpLine>, parse: string -> Option<real>, first: int): (r: Option<seq<GdpEntry>>)
    ensures r.None? <==> exists i :: 0 <= i < |lines| && ConvertGdp(lines[i].gdpText, parse).None?
    ensures r.Some? ==> |r.value| == |lines| && forall i :: 0 <= i < |lines| ==>
      Some(r.value[i].gdp) == ConvertGdp(lines[i].gdpText, parse) &&
      r.value[i] == GdpEntry(lines[i].country, r.value[i].gdp, first + i)
    decreases |lines|
  {
    if |lines| == 0 then Some([])
    else
      var rest := RankFrom(lines[1..], parse, first + 1);
      match ConvertGdp(lines[0].gdpText, parse)
      case None => None
      case Some(g) =>
        if rest.None? then
          var j :| 0 <= j < |lines[1..]| && ConvertGdp(lines[1..][j].gdpText, parse).None?;
          assert lines[j + 1] == lines[1..][j];
          None
        else Some([GdpEntry(lines[0].country, g, first)] + rest.value)
  }

  /** `add_GDP_with_rank`: the rank of a country is its 1-based row position
      in the file, whatever its GDP. A missing GDP cell gives an unknown GDP.
      The run fails when the column was read as numbers (so `.str` does not
      apply), or when a GDP text, once its commas are removed, does not
      convert to a number. */
  function AddGdpWithRank(lines: seq<GdpLine>, parse: string -> Option<real>): (r: Option<seq<GdpEntry>>)
    ensures r.None? <==> (NumericColumn(lines, parse) ||
      exists i :: 0 <= i < |lines| && lines[i].gdpText.Some? && parse(StripCommas(lines[i].gdpText.value)).None?)
    ensures r.Some? ==> |r.value| == |lines|
    ensures r.Some? ==> forall i :: 0 <= i < |lines| ==>
      && r.value[i].rankGdp == i + 1
      && r.value[i].country == lines[i].country
      && (lines[i].gdpText.None? ==> r.value[i].gdp == Unknown)
      && (lines[i].gdpText.Some? ==> r.value[i].gdp == Known(parse(StripCommas(lines[i].gdpText.value)).value))
  {
    if NumericColumn(lines, parse) then None
    else RankFrom(lines, parse, 1)
  }
}
