/**
 * The read-only queries of `DBUtil` on pages 1 and 3 (and the country ones
 * page 2 shares). Each returns a fresh list or frame and leaves the table
 * alone, so each is a function of the table.
 */
module Queries {
  import opened Wrappers
  import opened Text
  import opened Seqs
  import opened Sorting
  import opened Grouping
  import opened Restaurants

  /** `df['country_name']`. */
  function CountryColumn(t: Table): (c: seq<string>)
    ensures |c| == |t| && forall i :: 0 <= i < |t| ==> c[i] == t[i].country_name
  {
    seq(|t|, i requires 0 <= i < |t| => t[i].country_name)
  }

  /** `df['unique_cuisine']`. */
  function CuisineColumn(t: Table): (c: seq<string>)
    ensures |c| == |t| && forall i :: 0 <= i < |t| ==> c[i] == t[i].unique_cuisine
  {
    seq(|t|, i requires 0 <= i < |t| => t[i].unique_cuisine)
  }

  /** `get_all_countries`: `sorted(df['country_name'].unique())`, ascending
      without repetitions, holding exactly the country names of the table. */
  function AllCountries(t: Table): (r: seq<string>)
    ensures StrictlySorted(r)
    ensures forall y :: y in r <==> exists i :: 0 <= i < |t| && t[i].country_name == y
  {
    SortedUniqueIsSorted(CountryColumn(t));
    SortedUnique(CountryColumn(t))
  }

  /** `qty_restaurants_per_country`: one entry per country of the table with
      the number of its rows, largest first; the counts add up to the number of
      rows. */
  function QtyRestaurantsPerCountry(t: Table): (r: seq<(string, nat)>)
    ensures IsRanking(CountryColumn(t), Occurrences(CountryColumn(t)), r)
    ensures |r| == |Elems(CountryColumn(t))|
    ensures Total(r) == |t|
  {
    var r := GroupCount(CountryColumn(t));
    RankingSize(CountryColumn(t), Occurrences(CountryColumn(t)), r);
    CountsSumToRows(CountryColumn(t), r);
    r
  }

  /** `countries_with_more_restaurants(n)`: the first `n` countries of the
      ranking by number of restaurants. */
  function CountriesWithMoreRestaurants(t: Table, n: int): (top: seq<string>)
    ensures IsTopN(CountryColumn(t), Occurrences(CountryColumn(t)), n, top)
  {
    if n < 1 then []
    else
      var r := GroupCount(CountryColumn(t));
      TopNSpec(CountryColumn(t), Occurrences(CountryColumn(t)), r, n);
      TopN(r, n)
  }

  /** The sidebar's default countries are among its options. */
  lemma DefaultCountriesAreOptions(t: Table, n: int)
    ensures forall y :: y in CountriesWithMoreRestaurants(t, n) ==> y in AllCountries(t)
  {
    forall y | y in CountriesWithMoreRestaurants(t, n) ensures y in AllCountries(t) {
      assert y in CountryColumn(t);
    }
  }

  /** `qty_cities_per_country`: one entry per country with the number of
      distinct cities among its rows, largest first. */
  function QtyCitiesPerCountry(t: Table): (r: seq<(string, nat)>)
    ensures IsRanking(CountryColumn(t), DistinctValues(CountryCities(t)), r)
  {
    GroupDistinct(CountryCities(t))
  }

  /** `df.loc[:, ['country_name', 'city']]`. */
  function CountryCities(t: Table): (p: seq<(string, string)>)
    ensures |p| == |t| && forall i :: 0 <= i < |t| ==> p[i] == (t[i].country_name, t[i].city)
  {
    seq(|t|, i requires 0 <= i < |t| => (t[i].country_name, t[i].city))
  }

  /** A country never has more distinct cities than restaurants. */
  lemma CitiesAtMostRestaurants(t: Table, r: seq<(string, nat)>, k: int)
    requires r == QtyCitiesPerCountry(t) && 0 <= k < |r|
    ensures r[k].1 <= multiset(CountryColumn(t))[r[k].0]
  {
    DistinctValuesBound(CountryCities(t), r[k].0);
    assert Keys(CountryCities(t)) == CountryColumn(t);
  }

  /** `any(name in value for name in names)`: some selected name occurs
      inside the value (a substring test, not equality). */
  predicate MatchesAny(value: string, names: seq<string>) {
    exists i | 0 <= i < |names| :: Contains(value, names[i])
  }

  /** `df.loc[df[column].apply(lambda x: any(...)), :]`: the rows whose column
      matches some selected name, in table order with their multiplicities. */
  function ItemsMatching(t: Table, column: Row -> string, names: seq<string>): (r: Table)
    ensures forall x :: multiset(r)[x] == if MatchesAny(column(x), names) then multiset(t)[x] else 0
    ensures IsSubsequence(r, t)
  {
    Filter(t, x => MatchesAny(column(x), names))
  }

  /** A row is kept exactly when it is in the table and matches. */
  lemma ItemsMatchingMembers(t: Table, column: Row -> string, names: seq<string>)
    ensures forall x :: x in ItemsMatching(t, column, names) <==> x in t && MatchesAny(column(x), names)
  {
    FilterMembers(t, x => MatchesAny(column(x), names));
  }

  /** Selecting nothing yields an empty table. */
  lemma ItemsMatchingNone(t: Table, column: Row -> string)
    ensures ItemsMatching(t, column, []) == []
  {
    FilterKeepsNone(t, x => MatchesAny(column(x), []));
  }

  /** Selecting every value the column holds keeps the whole table. */
  lemma ItemsMatchingAll(t: Table, column: Row -> string, names: seq<string>)
    requires forall x :: x in t ==> column(x) in names
    ensures ItemsMatching(t, column, names) == t
  {
    forall x | x in t ensures MatchesAny(column(x), names) {
      var i :| 0 <= i < |names| && names[i] == column(x);
      ContainsSelf(column(x));
    }
    FilterKeepsAll(t, x => MatchesAny(column(x), names));
  }

  function CountryOf(r: Row): string { r.country_name }

  function CuisineOf(r: Row): string { r.unique_cuisine }

  /** `get_items_with_these_countries` of pages 1 and 3. */
  function ItemsWithTheseCountries(t: Table, names: seq<string>): (r: Table)
    ensures forall x :: multiset(r)[x] == if MatchesAny(x.country_name, names) then multiset(t)[x] else 0
    ensures forall x :: x in r <==> x in t && MatchesAny(x.country_name, names)
    ensures IsSubsequence(r, t)
  {
    ItemsMatchingMembers(t, CountryOf, names);
    ItemsMatching(t, CountryOf, names)
  }

  /** `get_all_cuisines`: the non-empty `unique_cuisine` values, sorted,
      without repetitions. */
  function AllCuisines(t: Table): (r: seq<string>)
    ensures StrictlySorted(r)
    ensures "" !in r
    ensures forall y :: y in r <==> y != "" && exists i :: 0 <= i < |t| && t[i].unique_cuisine == y
  {
    var named := Filter(t, (x: Row) => x.unique_cuisine != "");
    FilterMembers(t, (x: Row) => x.unique_cuisine != "");
    SortedUniqueIsSorted(CuisineColumn(named));
    var r := SortedUnique(CuisineColumn(named));
    assert forall y :: y in r <==> y != "" && exists i :: 0 <= i < |t| && t[i].unique_cuisine == y by {
      forall y ensures y in r <==> y != "" && exists i :: 0 <= i < |t| && t[i].unique_cuisine == y {
        if y in r {
          var k :| 0 <= k < |named| && CuisineColumn(named)[k] == y;
          assert named[k] in named;
          var i :| 0 <= i < |t| && t[i] == named[k];
        }
        if y != "" && exists i :: 0 <= i < |t| && t[i].unique_cuisine == y {
          var i :| 0 <= i < |t| && t[i].unique_cuisine == y;
          assert t[i] in named;
          var k :| 0 <= k < |named| && named[k] == t[i];
          assert CuisineColumn(named)[k] == y;
        }
      }
    }
    r
  }

  /** `cuisines_with_more_restaurants(n, df)`: the first `n` cuisines of the
      ranking by number of restaurants; rows without a cuisine form the ""
      group and take part in the ranking. */
  function CuisinesWithMoreRestaurants(t: Table, n: int): (top: seq<string>)
    ensures IsTopN(CuisineColumn(t), Occurrences(CuisineColumn(t)), n, top)
  {
    if n < 1 then []
    else
      var r := GroupCount(CuisineColumn(t));
      TopNSpec(CuisineColumn(t), Occurrences(CuisineColumn(t)), r, n);
      TopN(r, n)
  }

  /** The page-3 sidebar's default cuisines are among its options, except the
      "" of rows without cuisines, which the ranking counts and
      `get_all_cuisines` removes. */
  lemma DefaultCuisinesOptions(t: Table, n: int)
    ensures forall y :: y in CuisinesWithMoreRestaurants(t, n) ==> (y in AllCuisines(t) <==> y != "")
  {
    forall y | y in CuisinesWithMoreRestaurants(t, n) ensures y in AllCuisines(t) <==> y != "" {
      assert y in CuisineColumn(t);
    }
  }

  /** `get_items_with_these_cuisines`. */
  function ItemsWithTheseCuisines(t: Table, names: seq<string>): (r: Table)
    ensures forall x :: multiset(r)[x] == if MatchesAny(x.unique_cuisine, names) then multiset(t)[x] else 0
    ensures forall x :: x in r <==> x in t && MatchesAny(x.unique_cuisine, names)
    ensures IsSubsequence(r, t)
  {
    ItemsMatchingMembers(t, CuisineOf, names);
    ItemsMatching(t, CuisineOf, names)
  }

  /** `x` has cuisine `c` and no row of cuisine `c` is rated higher. */
  ghost predicate TopRated(t: Table, c: string, x: Row) {
    && x.unique_cuisine == c
    && forall y :: y in t && y.unique_cuisine == c ==> y.aggregate_rating <= x.aggregate_rating
  }

  /** `sort_values(by='restaurant_id')`: ascending ids. */
  predicate IdAtMost(a: Row, b: Row) {
    a.restaurant_id <= b.restaurant_id
  }

  /** The rating of the first row after sorting by rating, descending. */
  function MaxRating(s: Table): (m: Rating)
    requires s != []
    ensures exists i :: 0 <= i < |s| && s[i].aggregate_rating == m
    ensures forall i :: 0 <= i < |s| ==> s[i].aggregate_rating <= m
  {
    if |s| == 1 then s[0].aggregate_rating
    else
      var m := MaxRating(s[1..]);
      assert forall i :: 1 <= i < |s| ==> s[i] == s[1..][i - 1];
      if s[0].aggregate_rating >= m then s[0].aggregate_rating else m
  }

  /** `best_restaurants_from_cuisine(c, df)`: every row of cuisine `c` with the
      highest rating among that cuisine's rows, and no other row, in ascending
      id order. With no row of cuisine `c`, `df3.loc[0, ...]` raises
      `KeyError(0)`. */
  function BestFromCuisine(t: Table, c: string): (r: Result<Table, KeyError>)
    ensures r.Failure? <==> forall x :: x in t ==> x.unique_cuisine != c
    ensures r.Failure? ==> r.error == KeyError(0)
    ensures r.Success? ==> r.value != []
    ensures r.Success? ==> forall x :: multiset(r.value)[x] == if TopRated(t, c, x) then multiset(t)[x] else 0
    ensures r.Success? ==> SortedBy(r.value, IdAtMost)
  {
    var rows := Filter(t, (x: Row) => x.unique_cuisine == c);
    FilterMembers(t, (x: Row) => x.unique_cuisine == c);
    if rows == [] then
      Failure(KeyError(0))
    else
      var m := MaxRating(rows);
      var best := Filter(rows, (x: Row) => x.aggregate_rating == m);
      BestRowsSpec(t, c, rows, m, best);
      InsertionSortSorted(best, IdAtMost);
      Success(InsertionSort(best, IdAtMost))
  }

  /** The rows of cuisine `c` at their highest rating are exactly the top
      rated rows of that cuisine, and there is at least one. */
  lemma BestRowsSpec(t: Table, c: string, rows: Table, m: Rating, best: Table)
    requires rows == Filter(t, (x: Row) => x.unique_cuisine == c) && rows != []
    requires m == MaxRating(rows)
    requires best == Filter(rows, (x: Row) => x.aggregate_rating == m)
    ensures best != []
    ensures forall x :: multiset(best)[x] == if TopRated(t, c, x) then multiset(t)[x] else 0
  {
    var byCuisine := (x: Row) => x.unique_cuisine == c;
    var atMax := (x: Row) => x.aggregate_rating == m;
    forall x ensures multiset(best)[x] == if TopRated(t, c, x) then multiset(t)[x] else 0 {
      assert multiset(best)[x] == if atMax(x) then multiset(rows)[x] else 0;
      assert multiset(rows)[x] == if byCuisine(x) then multiset(t)[x] else 0;
      if x in t && x.unique_cuisine == c {
        TopRatedIff(t, c, rows, m, x);
      }
    }
    var i :| 0 <= i < |rows| && rows[i].aggregate_rating == m;
    assert multiset(best)[rows[i]] == multiset(rows)[rows[i]];
  }

  /** A row of cuisine `c` has the highest rating of its cuisine's rows
      exactly when it is top rated. */
  lemma TopRatedIff(t: Table, c: string, rows: Table, m: Rating, x: Row)
    requires rows == Filter(t, (x: Row) => x.unique_cuisine == c) && rows != []
    requires m == MaxRating(rows)
    requires x in t && x.unique_cuisine == c
    ensures x.aggregate_rating == m <==> TopRated(t, c, x)
  {
    FilterMembers(t, (x: Row) => x.unique_cuisine == c);
    if x.aggregate_rating == m {
      forall y | y in t && y.unique_cuisine == c ensures y.aggregate_rating <= m {
        assert y in rows;
      }
    } else {
      assert x in rows;
      var j :| 0 <= j < |rows| && rows[j].aggregate_rating == m;
      assert rows[j] in t;
    }
  }

  /** Every cuisine the page lists among the top ones has a best restaurant:
      the lookup on the same table cannot raise. */
  lemma TopCuisinesHaveBest(t: Table, n: int, c: string)
    requires c in CuisinesWithMoreRestaurants(t, n)
    ensures BestFromCuisine(t, c).Success?
  {
    var i :| 0 <= i < |t| && CuisineColumn(t)[i] == c;
    assert t[i] in t;
  }

  /** A row with its id negated. */
  function Negated(x: Row): Row {
    x.(restaurant_id := -x.restaurant_id)
  }

  /** `df['restaurant_id'] = -df['restaurant_id']`. */
  function NegateIds(t: Table): Table {
    Map(t, Negated)
  }

  /** A row occurs among the negated rows as often as its negation occurs
      among the originals. */
  lemma NegateIdsCount(t: Table, x: Row)
    ensures multiset(NegateIds(t))[x] == multiset(t)[Negated(x)]
  {
    forall i | 0 <= i < |t| ensures Negated(t[i]) == x <==> t[i] == Negated(x) {
      assert Negated(Negated(t[i])) == t[i] && Negated(Negated(x)) == x;
    }
    MapPreimageCount(t, Negated, x, Negated(x));
  }

  /** `sort_values(by=['aggregate_rating', 'restaurant_id'], ascending=False)`
      on negated ids: higher rating first, then larger negated id. */
  predicate RatingThenIdDesc(a: Row, b: Row) {
    a.aggregate_rating > b.aggregate_rating
    || (a.aggregate_rating == b.aggregate_rating && a.restaurant_id >= b.restaurant_id)
  }

  /** The order `best_restaurants` aims at: higher rating first, then the
      smaller id. */
  predicate RatingDescIdAsc(a: Row, b: Row) {
    a.aggregate_rating > b.aggregate_rating
    || (a.aggregate_rating == b.aggregate_rating && a.restaurant_id <= b.restaurant_id)
  }

  /** `best_restaurants(df)`: all the rows, with their own ids, from the best
      rated down, and among equal ratings by ascending id. */
  function BestRestaurants(t: Table): (r: Table)
    ensures multiset(r) == multiset(t)
    ensures SortedBy(r, RatingDescIdAsc)
  {
    var negated := NegateIds(t);
    var sorted := InsertionSort(negated, RatingThenIdDesc);
    InsertionSortSorted(negated, RatingThenIdDesc);
    NegateBackPermutation(t, sorted);
    NegateBackOrder(sorted);
    NegateIds(sorted)
  }

  /** Negating the ids of a permutation of the negated rows gives back a
      permutation of the original rows. */
  lemma NegateBackPermutation(t: Table, sorted: Table)
    requires multiset(sorted) == multiset(NegateIds(t))
    ensures multiset(NegateIds(sorted)) == multiset(t)
  {
    forall x ensures multiset(NegateIds(sorted))[x] == multiset(t)[x] {
      NegateIdsCount(sorted, x);
      NegateIdsCount(t, Negated(x));
      assert Negated(Negated(x)) == x;
    }
  }

  /** Negating the ids back turns "larger negated id first" into "smaller id
      first". */
  lemma NegateBackOrder(sorted: Table)
    requires SortedBy(sorted, RatingThenIdDesc)
    ensures SortedBy(NegateIds(sorted), RatingDescIdAsc)
  {
    var r := NegateIds(sorted);
    forall i, j | 0 <= i < j < |r| ensures RatingDescIdAsc(r[i], r[j]) {
      assert RatingThenIdDesc(sorted[i], sorted[j]);
    }
  }
}
