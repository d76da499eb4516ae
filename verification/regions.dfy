/** Region resolution: join each rated movie's original title to its alternate
    titles with identical text, collect the alternates' regions, and settle on
    the most frequent one, with a tie for the top count giving
    `International`. */
module Regions {
  import opened Wrappers
  import opened Seqs
  import opened Tables

  /** The join key of `find_movie_regions`: a movie and one title text. */
  datatype TitleKey = TitleKey(titleId: string, title: string)

  /** One row of the inner merge: an original title paired with the region of
      one alternate title sharing its key. */
  datatype Match = Match(key: TitleKey, region: string)

  /** A row of `find_movie_regions`' output: the key and its `region_list`. */
  datatype RegionRow = RegionRow(key: TitleKey, regions: seq<string>)

  /** A row after `decide_region`: the list replaced by one region, or by
      `None` when the list was empty. */
  datatype DecidedRow = DecidedRow(key: TitleKey, region: Option<string>)

  function KeyOf(a: Aka): TitleKey {
    TitleKey(a.titleId, a.title)
  }

  /** The identifiers present in the ratings table. */
  function RatedIds(ratings: seq<Rating>): set<string> {
    set t | t in ratings :: t.tconst
  }

  // ---------------------------------------------------------------------------
  // Reference definitions, read directly off the titles table
  // ---------------------------------------------------------------------------

  /** The number of rated original-title rows (flag 1) with key `k`. */
  function OriginalCount(akas: seq<Aka>, ids: set<string>, k: TitleKey): nat
  {
    if |akas| == 0 then 0
    else
      var a := akas[0];
      (if a.titleId in ids && a.isOriginalTitle == 1 && KeyOf(a) == k then 1 else 0)
        + OriginalCount(akas[1..], ids, k)
  }

  /** The regions of the rated alternate-title rows (flag 0) with key `k`, in
      table order. */
  function AlternateRegions(akas: seq<Aka>, ids: set<string>, k: TitleKey): seq<string>
  {
    if |akas| == 0 then []
    else
      var a := akas[0];
      (if a.titleId in ids && a.isOriginalTitle == 0 && KeyOf(a) == k then [a.region] else [])
        + AlternateRegions(akas[1..], ids, k)
  }

  // ---------------------------------------------------------------------------
  // find_movie_regions: split, inner merge, group
  // ---------------------------------------------------------------------------

  function OriginalMask(ids: set<string>): Aka -> bool {
    (a: Aka) => a.titleId in ids && a.isOriginalTitle == 1
  }

  function AlternateMask(ids: set<string>): Aka -> bool {
    (a: Aka) => a.titleId in ids && a.isOriginalTitle == 0
  }

  /** The merge rows one original row `o` produces, in alternate-table order. */
  function MatchesOf(o: Aka, alternates: seq<Aka>): seq<Match>
  {
    if |alternates| == 0 then []
    else
      (if KeyOf(alternates[0]) == KeyOf(o) then [Match(KeyOf(o), alternates[0].region)] else [])
        + MatchesOf(o, alternates[1..])
  }

  /** The inner merge on `(title, titleId)`, in the order of the left table. */
  function Join(originals: seq<Aka>, alternates: seq<Aka>): seq<Match>
  {
    if |originals| == 0 then [] else MatchesOf(originals[0], alternates) + Join(originals[1..], alternates)
  }

  /** The regions of the merge rows with key `k`: a group's `apply(list)`. */
  function GroupRegions(merged: seq<Match>, k: TitleKey): seq<string>
  {
    if |merged| == 0 then []
    else (if merged[0].key == k then [merged[0].region] else []) + GroupRegions(merged[1..], k)
  }

  function MatchKeys(merged: seq<Match>): seq<TitleKey> {
    seq(|merged|, i requires 0 <= i < |merged| => merged[i].key)
  }

  /** Rows of `find_movie_regions`. Each key appears once; a key appears
      exactly when the movie is rated and has both an original row and an
      alternate row with that same title text; its region list is the
      alternates' regions, in table order, once for each matching original
      row (the join's multiplicity), so it is never empty. */
  function FindMovieRegions(akas: seq<Aka>, ratings: seq<Rating>): (r: seq<RegionRow>)
    ensures forall i, j :: 0 <= i < j < |r| ==> r[i].key != r[j].key
    ensures forall k :: (exists row :: row in r && row.key == k) <==>
      OriginalCount(akas, RatedIds(ratings), k) > 0 && |AlternateRegions(akas, RatedIds(ratings), k)| > 0
    ensures forall row :: row in r ==>
      row.regions == Repeat(AlternateRegions(akas, RatedIds(ratings), row.key), OriginalCount(akas, RatedIds(ratings), row.key))
    ensures forall row :: row in r ==> |row.regions| > 0
  {
    var ids := RatedIds(ratings);
    var originals := Filter(akas, OriginalMask(ids));
    var alternates := Filter(akas, AlternateMask(ids));
    var merged := Join(originals, alternates);
    var keys := Distinct(MatchKeys(merged));
    JoinCharacterised(akas, ids);
    forall k
      ensures k in keys <==> OriginalCount(akas, ids, k) > 0 && |AlternateRegions(akas, ids, k)| > 0
    {
      GroupNonEmptyIffKey(merged, k);
      ProductPositive(OriginalCount(akas, ids, k), |AlternateRegions(akas, ids, k)|);
    }
    var r := seq(|keys|, i requires 0 <= i < |keys| => RegionRow(keys[i], GroupRegions(merged, keys[i])));
    assert forall k :: (exists row :: row in r && row.key == k) <==> k in keys by {
      forall k
        ensures (exists row :: row in r && row.key == k) <==> k in keys
      {
        if k in keys {
          var i :| 0 <= i < |keys| && keys[i] == k;
          assert r[i] in r;
        }
      }
    }
    r
  }

  lemma ProductPositive(a: nat, b: nat)
    ensures a * b > 0 <==> a > 0 && b > 0
  {
    if a > 0 && b > 0 {
      assert a * b >= b;
    }
  }

  /** The grouped join equals the reference definitions for every key. */
  lemma JoinCharacterised(akas: seq<Aka>, ids: set<string>)
    ensures forall k ::
      (GroupRegions(Join(Filter(akas, OriginalMask(ids)), Filter(akas, AlternateMask(ids))), k)
       == Repeat(AlternateRegions(akas, ids, k), OriginalCount(akas, ids, k)))
  {
    var originals := Filter(akas, OriginalMask(ids));
    var alternates := Filter(akas, AlternateMask(ids));
    forall k
      ensures GroupRegions(Join(originals, alternates), k) == Repeat(AlternateRegions(akas, ids, k), OriginalCount(akas, ids, k))
    {
      GroupOfJoin(originals, alternates, k);
      OriginalsCounted(akas, ids, k);
      AlternatesListed(akas, ids, k);
    }
  }

  function CountKey(s: seq<Aka>, k: TitleKey): nat {
    if |s| == 0 then 0 else (if KeyOf(s[0]) == k then 1 else 0) + CountKey(s[1..], k)
  }

  function RegionsWithKey(s: seq<Aka>, k: TitleKey): seq<string> {
    if |s| == 0 then [] else (if KeyOf(s[0]) == k then [s[0].region] else []) + RegionsWithKey(s[1..], k)
  }

  lemma {:induction false} GroupConcat(m1: seq<Match>, m2: seq<Match>, k: TitleKey)
    ensures GroupRegions(m1 + m2, k) == GroupRegions(m1, k) + GroupRegions(m2, k)
    decreases |m1|
  {
    if |m1| > 0 {
      assert (m1 + m2)[1..] == m1[1..] + m2;
      GroupConcat(m1[1..], m2, k);
    } else {
      assert m1 + m2 == m2;
    }
  }

  lemma {:induction false} GroupOfMatches(o: Aka, alternates: seq<Aka>, k: TitleKey)
    ensures GroupRegions(MatchesOf(o, alternates), k) == if KeyOf(o) == k then RegionsWithKey(alternates, k) else []
    decreases |alternates|
  {
    if |alternates| > 0 {
      var head := if KeyOf(alternates[0]) == KeyOf(o) then [Match(KeyOf(o), alternates[0].region)] else [];
      GroupConcat(head, MatchesOf(o, alternates[1..]), k);
      GroupOfMatches(o, alternates[1..], k);
    }
  }

  /** Joining then grouping repeats the key's alternate regions once per
      original row carrying the key. */
  lemma {:induction false} GroupOfJoin(originals: seq<Aka>, alternates: seq<Aka>, k: TitleKey)
    ensures GroupRegions(Join(originals, alternates), k) == Repeat(RegionsWithKey(alternates, k), CountKey(originals, k))
    decreases |originals|
  {
    if |originals| > 0 {
      GroupConcat(MatchesOf(originals[0], alternates), Join(originals[1..], alternates), k);
      GroupOfMatches(originals[0], alternates, k);
      GroupOfJoin(originals[1..], alternates, k);
    }
  }

  lemma {:induction false} OriginalsCounted(akas: seq<Aka>, ids: set<string>, k: TitleKey)
    ensures CountKey(Filter(akas, OriginalMask(ids)), k) == OriginalCount(akas, ids, k)
    decreases |akas|
  {
    if |akas| > 0 {
      OriginalsCounted(akas[1..], ids, k);
      if OriginalMask(ids)(akas[0]) {
        assert ([akas[0]] + Filter(akas[1..], OriginalMask(ids)))[1..] == Filter(akas[1..], OriginalMask(ids));
      }
    }
  }

  lemma {:induction false} AlternatesListed(akas: seq<Aka>, ids: set<string>, k: TitleKey)
    ensures RegionsWithKey(Filter(akas, AlternateMask(ids)), k) == AlternateRegions(akas, ids, k)
    decreases |akas|
  {
    if |akas| > 0 {
      AlternatesListed(akas[1..], ids, k);
      if AlternateMask(ids)(akas[0]) {
        assert ([akas[0]] + Filter(akas[1..], AlternateMask(ids)))[1..] == Filter(akas[1..], AlternateMask(ids));
      }
    }
  }

  /** A key heads some merge row exactly when its group is non-empty. */
  lemma {:induction false} GroupNonEmptyIffKey(merged: seq<Match>, k: TitleKey)
    ensures k in MatchKeys(merged) <==> |GroupRegions(merged, k)| > 0
    decreases |merged|
  {
    if |merged| > 0 {
      GroupNonEmptyIffKey(merged[1..], k);
      assert MatchKeys(merged) == [merged[0].key] + MatchKeys(merged[1..]);
    }
  }

  // ---------------------------------------------------------------------------
  // most_frequent_region and decide_region
  // ---------------------------------------------------------------------------

  /** `g` occurs in `lst` strictly more often than any other region. */
  ghost predicate IsUniqueMode(lst: seq<string>, g: string) {
    g in lst && forall h :: h in lst && h != g ==> multiset(lst)[h] < multiset(lst)[g]
  }

  ghost predicate HasUniqueMode(lst: seq<string>) {
    exists g :: IsUniqueMode(lst, g)
  }

  /** The largest count in `lst` of a region listed in `s`. */
  function MaxCount(lst: seq<string>, s: seq<string>): (m: nat)
    ensures forall x :: x in s ==> multiset(lst)[x] <= m
    ensures |s| > 0 ==> exists x :: x in s && multiset(lst)[x] == m
  {
    if |s| == 0 then 0
    else
      var rest := MaxCount(lst, s[1..]);
      if multiset(lst)[s[0]] >= rest then multiset(lst)[s[0]] else rest
  }

  function CountIs(lst: seq<string>, m: nat): string -> bool {
    (x: string) => multiset(lst)[x] == m
  }

  /** The distinct regions sharing the top count: the head of
      `Counter.most_common()`. */
  function TopRegions(lst: seq<string>): seq<string> {
    Distinct(Filter(lst, CountIs(lst, MaxCount(lst, lst))))
  }

  /** `most_frequent_region`: `None` for an empty list; the region with the
      strictly largest count when there is one; `International` when two or
      more regions share the top count. */
  function MostFrequentRegion(lst: seq<string>): (r: Option<string>)
    ensures lst == [] <==> r == None
    ensures forall g :: IsUniqueMode(lst, g) ==> r == Some(g)
    ensures lst != [] && !HasUniqueMode(lst) ==> r == Some(International)
    ensures r.Some? ==> r.value in lst || r.value == International
  {
    if |lst| == 0 then None
    else
      var top := TopRegions(lst);
      var m := MaxCount(lst, lst);
      assert forall x :: x in top <==> x in lst && multiset(lst)[x] == m;
      assert |top| > 0 by {
        var x :| x in lst && multiset(lst)[x] == m;
        assert x in top;
      }
      assert forall g :: IsUniqueMode(lst, g) ==> top == [g] by {
        forall g | IsUniqueMode(lst, g)
          ensures top == [g]
        {
          assert multiset(lst)[g] == m;
          assert forall x :: x in top ==> x == g;
          CardinalityOfDistinct(top);
          assert (set x | x in top) == {g};
          assert top[0] == g;
        }
      }
      assert |top| == 1 ==> IsUniqueMode(lst, top[0]);
      if |top| > 1 then Some(International) else Some(top[0])
  }

  /** The result depends only on how often each region occurs, so reordering
      the list never changes it. */
  lemma MostFrequentRegionPermutation(a: seq<string>, b: seq<string>)
    requires multiset(a) == multiset(b)
    ensures MostFrequentRegion(a) == MostFrequentRegion(b)
  {
    assert forall x :: x in a <==> x in b by {
      forall x
        ensures x in a <==> x in b
      {
        assert x in a <==> x in multiset(a);
        assert x in b <==> x in multiset(b);
      }
    }
    assert forall g :: IsUniqueMode(a, g) <==> IsUniqueMode(b, g);
    if a == [] {
      assert |b| == |multiset(b)| == 0;
    } else if HasUniqueMode(a) {
      var g :| IsUniqueMode(a, g);
      assert IsUniqueMode(b, g);
    } else {
      assert |b| == |multiset(b)| > 0;
      assert !HasUniqueMode(b);
    }
  }

  /** Two distinct regions sharing the top count resolve to `International`. */
  lemma TopTieIsInternational(lst: seq<string>, g: string, h: string)
    requires g in lst && h in lst && g != h
    requires multiset(lst)[g] == multiset(lst)[h]
    requires forall x :: x in lst ==> multiset(lst)[x] <= multiset(lst)[g]
    ensures MostFrequentRegion(lst) == Some(International)
  {
    assert !HasUniqueMode(lst) by {
      forall x
        ensures !IsUniqueMode(lst, x)
      {
        if x == g {
          assert h in lst && h != x && multiset(lst)[h] == multiset(lst)[x];
        } else if x in lst {
          assert g in lst && g != x && multiset(lst)[g] >= multiset(lst)[x];
        }
      }
    }
  }

  /** `decide_region`'s shortcut for one-element lists: a single region is its
      own unique mode. */
  function DecideOne(regions: seq<string>): (r: Option<string>)
    ensures r == MostFrequentRegion(regions)
  {
    if |regions| == 1 then
      assert IsUniqueMode(regions, regions[0]);
      Some(regions[0])
    else MostFrequentRegion(regions)
  }

  /** `decide_region`: replaces each row's region list by its resolved region,
      keeping the rows, their order and their keys. */
  function DecideRegion(df: seq<RegionRow>): (r: seq<DecidedRow>)
    ensures |r| == |df|
    ensures forall i :: 0 <= i < |df| ==> r[i].key == df[i].key && r[i].region == MostFrequentRegion(df[i].regions)
  {
    seq(|df|, i requires 0 <= i < |df| => DecidedRow(df[i].key, DecideOne(df[i].regions)))
  }

  /** After `find_movie_regions` every list is non-empty, so every movie gets
      a region: one of its alternates' regions, or `International`. */
  lemma DecidedRegionsAreResolved(akas: seq<Aka>, ratings: seq<Rating>)
    ensures forall row :: row in DecideRegion(FindMovieRegions(akas, ratings)) ==>
      row.region.Some? &&
      (row.region.value == International ||
       row.region.value in AlternateRegions(akas, RatedIds(ratings), row.key))
  {
    var found := FindMovieRegions(akas, ratings);
    var decided := DecideRegion(found);
    forall row | row in decided
      ensures row.region.Some?
      ensures row.region.value == International ||
        row.region.value in AlternateRegions(akas, RatedIds(ratings), row.key)
    {
      var i :| 0 <= i < |decided| && decided[i] == row;
      assert found[i] in found;
      var alts := AlternateRegions(akas, RatedIds(ratings), row.key);
      var regions := found[i].regions;
      assert regions == Repeat(alts, OriginalCount(akas, RatedIds(ratings), row.key));
      if row.region.value != International {
        var g := row.region.value;
        assert g in regions;
        assert multiset(regions)[g] > 0;
        assert multiset(alts)[g] > 0;
      }
    }
  }
}
