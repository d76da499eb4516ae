/** The year-window filter: keep the movies whose start year lies in
    `[startYear, endYear]` and restrict the other tables to those movies. */
module YearFilter {
  import opened Wrappers
  import opened Seqs
  import opened Tables

  /** The four filtered tables, in the order the source returns them. */
  datatype Filtered = Filtered(akas: seq<Aka>, crew: seq<Crew>, ratings: seq<Rating>, basics: seq<Basic>)

  /** The row's year parsed to a number lying in the inclusive window. */
  predicate InWindow(b: Basic, startYear: int, endYear: int) {
    b.startYear.Some? && startYear <= b.startYear.value <= endYear
  }

  /** Some basics row with identifier `id` has its year in the window. */
  predicate Survives(basics: seq<Basic>, startYear: int, endYear: int, id: string) {
    exists b :: b in basics && b.tconst == id && InWindow(b, startYear, endYear)
  }

  function WindowMask(startYear: int, endYear: int): Basic -> bool {
    (b: Basic) => InWindow(b, startYear, endYear)
  }

  function AkaMask(ids: set<string>): Aka -> bool {
    (a: Aka) => a.titleId in ids
  }

  function CrewMask(ids: set<string>): Crew -> bool {
    (c: Crew) => c.tconst in ids
  }

  function RatingMask(ids: set<string>): Rating -> bool {
    (t: Rating) => t.tconst in ids
  }

  /** The identifiers of the surviving basics rows (`tconst.unique()`). */
  function Ids(basics: seq<Basic>): set<string> {
    set b | b in basics :: b.tconst
  }

  /** Keeps the basics rows whose year is in the window, then the title,
      crew and ratings rows whose identifier belongs to a kept basics row.
      Every output table is an order-preserving subsequence of its input
      holding exactly the qualifying rows, duplicates included. */
  function FilterYears(basics: seq<Basic>, akas: seq<Aka>, crew: seq<Crew>, ratings: seq<Rating>,
                       startYear: int, endYear: int): (r: Filtered)
    ensures IsSubsequence(r.basics, basics) && IsSubsequence(r.akas, akas)
    ensures IsSubsequence(r.crew, crew) && IsSubsequence(r.ratings, ratings)
    ensures forall b {:trigger multiset(r.basics)[b]} ::
      multiset(r.basics)[b] == if InWindow(b, startYear, endYear) then multiset(basics)[b] else 0
    ensures forall a {:trigger multiset(r.akas)[a]} ::
      multiset(r.akas)[a] == if Survives(basics, startYear, endYear, a.titleId) then multiset(akas)[a] else 0
    ensures forall c {:trigger multiset(r.crew)[c]} ::
      multiset(r.crew)[c] == if Survives(basics, startYear, endYear, c.tconst) then multiset(crew)[c] else 0
    ensures forall t {:trigger multiset(r.ratings)[t]} ::
      multiset(r.ratings)[t] == if Survives(basics, startYear, endYear, t.tconst) then multiset(ratings)[t] else 0
  {
    var kept := Filter(basics, WindowMask(startYear, endYear));
    var ids := Ids(kept);
    assert forall id :: id in ids <==> Survives(basics, startYear, endYear, id);
    Filtered(Filter(akas, AkaMask(ids)), Filter(crew, CrewMask(ids)), Filter(ratings, RatingMask(ids)), kept)
  }

  /** Filtering already-filtered tables with the same window changes nothing. */
  lemma FilterYearsIdempotent(basics: seq<Basic>, akas: seq<Aka>, crew: seq<Crew>, ratings: seq<Rating>,
                              startYear: int, endYear: int)
    ensures var r := FilterYears(basics, akas, crew, ratings, startYear, endYear);
      FilterYears(r.basics, r.akas, r.crew, r.ratings, startYear, endYear) == r
  {
    var r := FilterYears(basics, akas, crew, ratings, startYear, endYear);
    var kept := Filter(basics, WindowMask(startYear, endYear));
    var ids := Ids(kept);
    FilterKeepsAll(kept, WindowMask(startYear, endYear));
    FilterKeepsAll(r.akas, AkaMask(ids));
    FilterKeepsAll(r.crew, CrewMask(ids));
    FilterKeepsAll(r.ratings, RatingMask(ids));
  }

  /** Widening the window never loses a row of any table. */
  lemma WiderWindowKeepsMore(basics: seq<Basic>, akas: seq<Aka>, crew: seq<Crew>, ratings: seq<Rating>,
                             s1: int, e1: int, s2: int, e2: int)
    requires s2 <= s1 && e1 <= e2
    ensures var narrow := FilterYears(basics, akas, crew, ratings, s1, e1);
      var wide := FilterYears(basics, akas, crew, ratings, s2, e2);
      && multiset(narrow.basics) <= multiset(wide.basics)
      && multiset(narrow.akas) <= multiset(wide.akas)
      && multiset(narrow.crew) <= multiset(wide.crew)
      && multiset(narrow.ratings) <= multiset(wide.ratings)
  {
    assert forall id :: Survives(basics, s1, e1, id) ==> Survives(basics, s2, e2, id);
  }

  /** An empty window (start after end) keeps nothing. */
  lemma EmptyWindowKeepsNothing(basics: seq<Basic>, akas: seq<Aka>, crew: seq<Crew>, ratings: seq<Rating>,
                                startYear: int, endYear: int)
    requires endYear < startYear
    ensures FilterYears(basics, akas, crew, ratings, startYear, endYear) == Filtered([], [], [], [])
  {
    var r := FilterYears(basics, akas, crew, ratings, startYear, endYear);
    assert multiset(r.basics) == multiset{};
    assert forall id :: !Survives(basics, startYear, endYear, id);
    assert multiset(r.akas) == multiset{};
    assert multiset(r.crew) == multiset{};
    assert multiset(r.ratings) == multiset{};
  }
}
