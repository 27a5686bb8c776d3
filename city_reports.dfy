/**
 * Page 2 ("Visão Cidades"): its country filter, which keeps the old index as
 * a column, and the four per-city aggregations that `AppCidades.MainPage`
 * computes inline before charting them. A city is identified by the pair
 * (country_name, city), as in every `groupby(['country_name', 'city'])`.
 */
module CityReports {
  import opened Seqs
  import opened Grouping
  import opened Restaurants
  import opened Cleansing
  import opened Queries

  /** Page 2's `get_items_with_these_countries`: `reset_index()` without
      `drop=True`, so every kept row comes with its old index label. */
  function ItemsWithTheseCountriesLabelled(index: seq<int>, t: Table, names: seq<string>): (r: seq<(int, Row)>)
    requires |index| == |t|
    ensures forall p :: p in r <==> p in Zip(index, t) && MatchesAny(p.1.country_name, names)
    ensures forall p :: multiset(r)[p] == if MatchesAny(p.1.country_name, names) then multiset(Zip(index, t))[p] else 0
    ensures IsSubsequence(r, Zip(index, t))
    ensures StrictlyIncreasing(index) ==> StrictlyIncreasing(Keys(r))
  {
    var keep := (p: (int, Row)) => MatchesAny(p.1.country_name, names);
    var r := Filter(Zip(index, t), keep);
    FilterMembers(Zip(index, t), keep);
    assert StrictlyIncreasing(index) ==> StrictlyIncreasing(Keys(r)) by {
      if StrictlyIncreasing(index) {
        SubsequenceOrdered(r, Zip(index, t), (a: (int, Row), b: (int, Row)) => a.0 < b.0);
      }
    }
    r
  }

  /** On the cleansed table the labels are positions in the file that was
      read: each kept row is the cleansed form of the first raw row with its
      id, found at its label, and the labels increase. */
  lemma LabelsAreRawPositions(raw: Table, names: seq<string>)
    ensures |FirstPositions(raw)| == |Cleanse(raw)|
    ensures StrictlyIncreasing(Keys(ItemsWithTheseCountriesLabelled(FirstPositions(raw), Cleanse(raw), names)))
    ensures forall p :: p in ItemsWithTheseCountriesLabelled(FirstPositions(raw), Cleanse(raw), names) ==>
      IsFirst(raw, p.0) && p.1 == CleanRow(raw[p.0])
  {
    var c := Cleanse(raw);
    var ks := FirstPositions(raw);
    CleanseSpec(raw, c);
    var r := ItemsWithTheseCountriesLabelled(ks, c, names);
    forall p | p in r ensures IsFirst(raw, p.0) && p.1 == CleanRow(raw[p.0]) {
      var i :| 0 <= i < |ks| && Zip(ks, c)[i] == p;
    }
  }

  /** The key of a city. */
  function CityKey(x: Row): (string, string) {
    (x.country_name, x.city)
  }

  /** `df.loc[:, ['country_name', 'city']]` as one key column. */
  function CityKeys(t: Table): seq<(string, string)> {
    Map(t, CityKey)
  }

  /** `groupby(['country_name', 'city']).count().sort_values(..., ascending=False)`. */
  function CityCounts(t: Table): (r: seq<((string, string), nat)>)
    ensures IsRanking(CityKeys(t), Occurrences(CityKeys(t)), r)
    ensures Total(r) == |t|
  {
    var r := GroupCount(CityKeys(t));
    CountsSumToRows(CityKeys(t), r);
    r
  }

  /** The top-cities chart, `head(10)` of the city counts: at most ten
      cities of the table with the number of their restaurants, largest
      first, none beaten by a city left out. The preceding sort by (country,
      city) does not fix the order of ties, since the sort by count is not
      stable. */
  function TopCities(t: Table): (r: seq<((string, string), nat)>)
    ensures IsTopN(CityKeys(t), Occurrences(CityKeys(t)), 10, Keys(r))
    ensures forall i :: 0 <= i < |r| ==> r[i].1 == Occurrences(CityKeys(t))(r[i].0)
  {
    var c := CityCounts(t);
    TopNSpec(CityKeys(t), Occurrences(CityKeys(t)), c, 10);
    var m := if 10 < |c| then 10 else |c|;
    assert Keys(c[..m]) == TopN(c, 10);
    c[..m]
  }

  /** `aggregate_rating > 4.0`. */
  predicate AboveFour(x: Row) {
    x.aggregate_rating > 40
  }

  /** `aggregate_rating < 2.5`. */
  predicate BelowTwoAndHalf(x: Row) {
    x.aggregate_rating < 25
  }

  /** Counting the cities of a selection of rows: a city is listed exactly
      when one of its rows is selected, with the number of its selected rows,
      and the counts add up to the number of selected rows. */
  lemma CityCountsOfSelection(t: Table, keep: Row -> bool)
    ensures forall k :: k in Keys(CityCounts(Filter(t, keep))) <==> exists x :: x in t && keep(x) && CityKey(x) == k
    ensures Total(CityCounts(Filter(t, keep))) == |Filter(t, keep)|
  {
    var f := Filter(t, keep);
    FilterMembers(t, keep);
    CityKeysMembers(f);
  }

  /** The cities of a table are the keys of its rows. */
  lemma CityKeysMembers(s: Table)
    ensures forall k :: k in CityKeys(s) <==> exists x :: x in s && CityKey(x) == k
  {
    forall k ensures k in CityKeys(s) <==> exists x :: x in s && CityKey(x) == k {
      if k in CityKeys(s) {
        var i :| 0 <= i < |s| && CityKeys(s)[i] == k;
        assert s[i] in s;
      }
      if exists x :: x in s && CityKey(x) == k {
        var x :| x in s && CityKey(x) == k;
        var i :| 0 <= i < |s| && s[i] == x;
        assert CityKeys(s)[i] == k;
      }
    }
  }

  /** The chart of cities with restaurants rated above 4.0. */
  function HighRatedCities(t: Table): (r: seq<((string, string), nat)>)
    ensures IsRanking(CityKeys(Filter(t, AboveFour)), Occurrences(CityKeys(Filter(t, AboveFour))), r)
    ensures forall k :: k in Keys(r) <==> exists x :: x in t && AboveFour(x) && CityKey(x) == k
    ensures Total(r) == |Filter(t, AboveFour)|
  {
    CityCountsOfSelection(t, AboveFour);
    CityCounts(Filter(t, AboveFour))
  }

  /** The chart of cities with restaurants rated below 2.5. */
  function LowRatedCities(t: Table): (r: seq<((string, string), nat)>)
    ensures IsRanking(CityKeys(Filter(t, BelowTwoAndHalf)), Occurrences(CityKeys(Filter(t, BelowTwoAndHalf))), r)
    ensures forall k :: k in Keys(r) <==> exists x :: x in t && BelowTwoAndHalf(x) && CityKey(x) == k
    ensures Total(r) == |Filter(t, BelowTwoAndHalf)|
  {
    CityCountsOfSelection(t, BelowTwoAndHalf);
    CityCounts(Filter(t, BelowTwoAndHalf))
  }

  /** A restaurant is never counted both as rated above 4.0 and below 2.5. */
  lemma RatingBandsDisjoint(t: Table)
    ensures |Filter(t, AboveFour)| + |Filter(t, BelowTwoAndHalf)| <= |t|
  {
    var both := (x: Row) => AboveFour(x) || BelowTwoAndHalf(x);
    var a, b, u := Filter(t, AboveFour), Filter(t, BelowTwoAndHalf), Filter(t, both);
    assert forall x :: (multiset(a) + multiset(b))[x] == multiset(u)[x];
    assert multiset(a) + multiset(b) == multiset(u);
    assert |multiset(a) + multiset(b)| == |a| + |b|;
    SubsequenceLength(u, t);
  }

  /** `(city key, unique_cuisine)` per row. */
  function CityCuisine(x: Row): ((string, string), string) {
    (CityKey(x), x.unique_cuisine)
  }

  function CityCuisines(t: Table): seq<((string, string), string)> {
    Map(t, CityCuisine)
  }

  /** The chart of cities by variety of cuisines:
      `groupby([country, city, unique_cuisine]).count().reset_index()` keeps
      one row per distinct triple, and counting those per city gives, for
      every city, the number of distinct `unique_cuisine` values of its rows
      (the "" of rows without cuisines counts as one), largest first. */
  function CuisineVarietyPerCity(t: Table): (r: seq<((string, string), nat)>)
    ensures IsRanking(CityKeys(t), DistinctValues(CityCuisines(t)), r)
  {
    var triples := Uniq(CityCuisines(t));
    CountingTriples(t, triples);
    GroupCount(Keys(triples))
  }

  /** Counting the distinct (city, cuisine) rows per city ranks the cities
      by their number of distinct cuisines. */
  lemma CountingTriples(t: Table, triples: seq<((string, string), string)>)
    requires triples == Uniq(CityCuisines(t))
    ensures IsRanking(CityKeys(t), DistinctValues(CityCuisines(t)), GroupCount(Keys(triples)))
  {
    var r := GroupCount(Keys(triples));
    assert Keys(CityCuisines(t)) == CityKeys(t);
    forall k ensures k in Keys(triples) <==> k in CityKeys(t) {
      if k in Keys(triples) {
        var i :| 0 <= i < |triples| && triples[i].0 == k;
        assert triples[i] in CityCuisines(t);
        var j :| 0 <= j < |t| && CityCuisines(t)[j] == triples[i];
        assert CityKeys(t)[j] == k;
      }
      if k in CityKeys(t) {
        var j :| 0 <= j < |t| && CityKeys(t)[j] == k;
        assert CityCuisines(t)[j] in triples;
        var i :| 0 <= i < |triples| && triples[i] == CityCuisines(t)[j];
        assert Keys(triples)[i] == k;
      }
    }
    forall k | k in Keys(triples) ensures Occurrences(Keys(triples))(k) == DistinctValues(CityCuisines(t))(k) {
      DistinctPairsCount(triples, k);
      assert ValuesOf(triples, k) == ValuesOf(CityCuisines(t), k);
    }
    RankingTransfer(Keys(triples), Occurrences(Keys(triples)), CityKeys(t), DistinctValues(CityCuisines(t)), r);
  }

  /** A city never offers more distinct cuisines than it has restaurants. */
  lemma VarietyAtMostRestaurants(t: Table, k: (string, string))
    ensures DistinctValues(CityCuisines(t))(k) <= Occurrences(CityKeys(t))(k)
  {
    DistinctValuesBound(CityCuisines(t), k);
    assert Keys(CityCuisines(t)) == CityKeys(t);
  }
}
