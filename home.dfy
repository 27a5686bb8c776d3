/**
 * The Home page: the headline indicators over the selected rows, the keys
 * that group the rows into map markers, and `num_to_str`, which abbreviates
 * large counts.
 */
module Home {
  import opened Seqs
  import opened Grouping
  import opened Text
  import opened Restaurants
  import opened Queries

  // ---------------------------------------------------------------- indicators

  /** The five headline numbers: distinct countries, cities, restaurant names
      and cuisines, and the total number of votes. */
  datatype Indicators = Indicators(countries: nat, cities: nat, restaurants: nat, votes: int, cuisines: nat)

  function CityOf(x: Row): string { x.city }

  function NameOf(x: Row): string { x.restaurant_name }

  /** `df['votes'].sum()`: the sum of an empty column is 0, and when no
      restaurant has negative votes the sum is at least every single one. */
  function TotalVotes(t: Table): (total: int)
    ensures t == [] ==> total == 0
    ensures |t| == 1 ==> total == t[0].votes
    ensures (forall i :: 0 <= i < |t| ==> t[i].votes >= 0) ==>
      total >= 0 && forall i :: 0 <= i < |t| ==> t[i].votes <= total
  {
    if t == [] then 0
    else
      var rest := TotalVotes(t[1..]);
      assert forall i :: 1 <= i < |t| ==> t[1..][i - 1] == t[i];
      t[0].votes + rest
  }

  /** The sum of two frames stacked one on the other is the sum of their sums. */
  lemma {:induction false} TotalVotesAppend(a: Table, b: Table)
    ensures TotalVotes(a + b) == TotalVotes(a) + TotalVotes(b)
    decreases |a|
  {
    if a == [] {
      assert a + b == b;
    } else {
      assert (a + b)[1..] == a[1..] + b;
      TotalVotesAppend(a[1..], b);
    }
  }

  /** `len(df[column].unique())` for four columns and the sum of `votes`. Each
      count is at most the number of rows; the country count is the length of
      the sidebar's country list, and the cuisine count is the length of the
      cuisine list plus one when some row has no cuisine ("" is a value of the
      column but not an entry of the list). */
  function HeadlineIndicators(t: Table): (r: Indicators)
    ensures r.countries <= |t| && r.cities <= |t| && r.restaurants <= |t| && r.cuisines <= |t|
    ensures r.countries == |set x | x in t :: x.country_name|
    ensures r.cities == |set x | x in t :: x.city|
    ensures r.restaurants == |set x | x in t :: x.restaurant_name|
    ensures r.cuisines == |set x | x in t :: x.unique_cuisine|
    ensures r.countries == |AllCountries(t)|
    ensures r.cuisines == |AllCuisines(t)| + if "" in CuisineColumn(t) then 1 else 0
    ensures r.votes == TotalVotes(t)
  {
    CountryIndicator(t);
    CuisineIndicator(t);
    FieldSets(t);
    ElemsBound(CountryColumn(t));
    ElemsBound(Map(t, CityOf));
    ElemsBound(Map(t, NameOf));
    ElemsBound(CuisineColumn(t));
    Indicators(|Elems(CountryColumn(t))|, |Elems(Map(t, CityOf))|, |Elems(Map(t, NameOf))|,
               TotalVotes(t), |Elems(CuisineColumn(t))|)
  }

  /** `unique()` of each indicator's column is the set of that field over the
      rows. */
  lemma FieldSets(t: Table)
    ensures Elems(CountryColumn(t)) == set x | x in t :: x.country_name
    ensures Elems(Map(t, CityOf)) == set x | x in t :: x.city
    ensures Elems(Map(t, NameOf)) == set x | x in t :: x.restaurant_name
    ensures Elems(CuisineColumn(t)) == set x | x in t :: x.unique_cuisine
  {
    ColumnValues(t, CountryColumn(t), CountryOf);
    assert (set x | x in t :: CountryOf(x)) == set x | x in t :: x.country_name;
    ColumnValues(t, Map(t, CityOf), CityOf);
    assert (set x | x in t :: CityOf(x)) == set x | x in t :: x.city;
    ColumnValues(t, Map(t, NameOf), NameOf);
    assert (set x | x in t :: NameOf(x)) == set x | x in t :: x.restaurant_name;
    ColumnValues(t, CuisineColumn(t), CuisineOf);
    assert (set x | x in t :: CuisineOf(x)) == set x | x in t :: x.unique_cuisine;
  }

  /** The distinct values of a column are the values of its rows. */
  lemma ColumnValues(t: Table, col: seq<string>, f: Row -> string)
    requires |col| == |t| && forall i :: 0 <= i < |t| ==> col[i] == f(t[i])
    ensures Elems(col) == set x | x in t :: f(x)
  {
    forall y | y in Elems(col) ensures y in set x | x in t :: f(x) {
      var i :| 0 <= i < |t| && col[i] == y;
      assert t[i] in t;
    }
    forall y | y in set x | x in t :: f(x) ensures y in Elems(col) {
      var x :| x in t && f(x) == y;
      var i :| 0 <= i < |t| && t[i] == x;
      assert col[i] == y;
    }
  }

  /** A strictly ascending list has one distinct value per entry. */
  lemma SortedListSize(s: seq<string>)
    requires StrictlySorted(s)
    ensures |Elems(s)| == |s|
  {
    StrictlySortedNoRepeats(s);
    DistinctElems(s);
  }

  /** There are as many distinct countries as entries in `get_all_countries`. */
  lemma CountryIndicator(t: Table)
    ensures |Elems(CountryColumn(t))| == |AllCountries(t)|
  {
    var a := AllCountries(t);
    SortedListSize(a);
    assert Elems(a) == Elems(CountryColumn(t)) by {
      forall y ensures y in a <==> y in CountryColumn(t) {
        if y in CountryColumn(t) {
          var i :| 0 <= i < |t| && CountryColumn(t)[i] == y;
        }
      }
    }
  }

  /** There are as many distinct cuisines as entries in `get_all_cuisines`,
      plus the "" of rows without cuisines when there is one. */
  lemma CuisineIndicator(t: Table)
    ensures |Elems(CuisineColumn(t))| == |AllCuisines(t)| + if "" in CuisineColumn(t) then 1 else 0
  {
    var a := AllCuisines(t);
    var empty: set<string> := if "" in CuisineColumn(t) then {""} else {};
    SortedListSize(a);
    CuisineValues(t);
    assert Elems(a) * empty == {};
  }

  /** The cuisine column's values are those of `get_all_cuisines` and, when
      some row has no cuisine, "". */
  lemma CuisineValues(t: Table)
    ensures Elems(CuisineColumn(t)) == Elems(AllCuisines(t)) + if "" in CuisineColumn(t) then {""} else {}
  {
    var a, col := AllCuisines(t), CuisineColumn(t);
    forall y | y in col ensures y in a || y == "" {
      var i :| 0 <= i < |t| && col[i] == y;
    }
  }

  /** The votes indicator sums the votes of the countries selected in the
      sidebar; with the votes of the other countries' rows it makes up the
      table's total. */
  lemma {:induction false} SelectedVotes(t: Table, names: seq<string>)
    ensures TotalVotes(ItemsWithTheseCountries(t, names))
      + TotalVotes(Filter(t, (x: Row) => !MatchesAny(x.country_name, names))) == TotalVotes(t)
    decreases |t|
  {
    if t != [] {
      SelectedVotes(t[1..], names);
    }
  }

  /** Selecting every country ("Todos") keeps the whole table, so the page
      shows the whole table's indicators. */
  lemma AllCountriesSelected(t: Table)
    ensures ItemsWithTheseCountries(t, AllCountries(t)) == t
    ensures HeadlineIndicators(ItemsWithTheseCountries(t, AllCountries(t))) == HeadlineIndicators(t)
  {
    var all := AllCountries(t);
    forall x | x in t ensures CountryOf(x) in all {
      var i :| 0 <= i < |t| && t[i] == x;
    }
    ItemsMatchingAll(t, CountryOf, all);
  }

  // ---------------------------------------------------------------- map markers

  /** The grouping key of a map marker. */
  function MarkerKey(x: Row): (string, Rating, string) {
    (x.city, x.aggregate_rating, x.rating_color)
  }

  /** `groupby(['city', 'aggregate_rating', 'rating_color'])` in `country_map`:
      one marker per distinct (city, rating, colour) of the rows, never more
      markers than rows. */
  function MarkerGroups(t: Table): (r: seq<(string, Rating, string)>)
    ensures Distinct(r)
    ensures forall g :: g in r <==> exists x :: x in t && MarkerKey(x) == g
    ensures |r| <= |t|
  {
    var keys := Map(t, MarkerKey);
    var r := Uniq(keys);
    assert forall g :: g in r <==> exists x :: x in t && MarkerKey(x) == g by {
      forall g ensures g in keys <==> exists x :: x in t && MarkerKey(x) == g {
        if g in keys {
          var i :| 0 <= i < |t| && keys[i] == g;
          assert t[i] in t;
        }
        if exists x :: x in t && MarkerKey(x) == g {
          var x :| x in t && MarkerKey(x) == g;
          var i :| 0 <= i < |t| && t[i] == x;
          assert keys[i] == g;
        }
      }
    }
    DistinctElems(r);
    ElemsBound(keys);
    assert Elems(r) == Elems(keys);
    r
  }

  // ---------------------------------------------------------------- num_to_str

  predicate IsDigit(c: char) {
    '0' <= c <= '9'
  }

  predicate AllDigits(s: string) {
    forall i :: 0 <= i < |s| ==> IsDigit(s[i])
  }

  function DigitChar(d: nat): (c: char)
    requires d < 10
    ensures IsDigit(c)
  {
    (48 + d) as char
  }

  function DigitValue(c: char): nat
    requires IsDigit(c)
  {
    c as int - 48
  }

  /** `str(n)`: the decimal digits of `n`, without leading zeros. */
  function Decimal(n: nat): (s: string)
    ensures 1 <= |s| && AllDigits(s)
    ensures s[0] == '0' ==> n == 0
    ensures n < 10 ==> |s| == 1
    ensures n < 100 ==> |s| <= 2
    ensures n < 1000 ==> |s| <= 3
    decreases n
  {
    if n < 10 then [DigitChar(n)] else Decimal(n / 10) + [DigitChar(n % 10)]
  }

  /** The number a string of digits denotes. */
  function DigitsValue(s: string): nat
    requires AllDigits(s)
    decreases |s|
  {
    if s == [] then 0 else DigitsValue(s[..|s| - 1]) * 10 + DigitValue(s[|s| - 1])
  }

  /** Reading the digits back gives the number. */
  lemma {:induction false} DecimalValue(n: nat)
    ensures DigitsValue(Decimal(n)) == n
    decreases n
  {
    if n >= 10 {
      DecimalValue(n / 10);
      var s := Decimal(n);
      assert s[..|s| - 1] == Decimal(n / 10);
    }
  }

  /** A group of three digits after a comma, with leading zeros. */
  function Pad3(n: nat): (s: string)
    requires n < 1000
    ensures |s| == 3 && AllDigits(s)
  {
    [DigitChar(n / 100), DigitChar(n / 10 % 10), DigitChar(n % 10)]
  }

  /** The digits of `a * 1000 + b` are those of `a` followed by the three
      digits of `b`. */
  lemma DecimalThousands(a: nat, b: nat)
    requires 1 <= a && b < 1000
    ensures Decimal(a * 1000 + b) == Decimal(a) + Pad3(b)
  {
    var n := a * 1000 + b;
    var n1, n2 := a * 100 + b / 10, a * 10 + b / 100;
    assert n / 10 == n1 && n % 10 == b % 10;
    assert n1 / 10 == n2 && n1 % 10 == b / 10 % 10;
    assert n2 / 10 == a && n2 % 10 == b / 100;
    assert Decimal(n) == Decimal(n1) + [DigitChar(b % 10)];
    assert Decimal(n1) == Decimal(n2) + [DigitChar(b / 10 % 10)];
    assert Decimal(n2) == Decimal(a) + [DigitChar(b / 100)];
  }

  /** The text without its commas. */
  function WithoutCommas(s: string): (r: string)
    ensures ',' !in r
  {
    if s == [] then []
    else WithoutCommas(s[..|s| - 1]) + if s[|s| - 1] == ',' then [] else [s[|s| - 1]]
  }

  lemma {:induction false} WithoutCommasAppend(a: string, b: string)
    ensures WithoutCommas(a + b) == WithoutCommas(a) + WithoutCommas(b)
    decreases |b|
  {
    if b != [] {
      var c := b[..|b| - 1];
      WithoutCommasAppend(a, c);
      assert (a + b)[..|a + b| - 1] == a + c;
      assert b == c + [b[|b| - 1]];
    } else {
      assert a + b == a;
    }
  }

  lemma {:induction false} WithoutCommasDigits(s: string)
    requires AllDigits(s)
    ensures WithoutCommas(s) == s
    decreases |s|
  {
    if s != [] {
      WithoutCommasDigits(s[..|s| - 1]);
    }
  }

  /** Digits in groups: one to three digits, then groups of a comma and
      exactly three digits. */
  ghost predicate WellGrouped(s: string)
    decreases |s|
  {
    if |s| <= 3 then 1 <= |s| && AllDigits(s)
    else
      && |s| >= 5
      && s[|s| - 4] == ','
      && AllDigits(s[|s| - 3..])
      && WellGrouped(s[..|s| - 4])
  }

  /** `'{:,.0f}'.format(n)` for a whole `n >= 0`: the digits of `n` with a
      comma before every group of three, counted from the right. */
  function Grouped(n: nat): (s: string)
    ensures 1 <= |s|
    ensures ',' in s <==> n >= 1000
    decreases n
  {
    if n < 1000 then Decimal(n) else Grouped(n / 1000) + "," + Pad3(n % 1000)
  }

  /** The grouped text is well grouped, and without its commas it is the
      number's plain digits. */
  lemma {:induction false} GroupedShape(n: nat)
    ensures WithoutCommas(Grouped(n)) == Decimal(n)
    ensures WellGrouped(Grouped(n))
    decreases n
  {
    if n < 1000 {
      WithoutCommasDigits(Decimal(n));
    } else {
      var a, b := n / 1000, n % 1000;
      assert n == a * 1000 + b;
      assert Grouped(n) == Grouped(a) + "," + Pad3(b);
      GroupedShape(a);
      AppendGroup(Grouped(a), b);
      DecimalThousands(a, b);
    }
  }

  /** Appending a comma and a group of three digits keeps the grouping and
      adds the three digits to the digits. */
  lemma AppendGroup(head: string, g: nat)
    requires WellGrouped(head) && g < 1000
    ensures WellGrouped(head + "," + Pad3(g))
    ensures WithoutCommas(head + "," + Pad3(g)) == WithoutCommas(head) + Pad3(g)
  {
    var s := head + "," + Pad3(g);
    assert s[..|s| - 4] == head && s[|s| - 4] == ',' && s[|s| - 3..] == Pad3(g);
    AppendGroupDigits(head, g);
  }

  /** Without commas, a comma and a group of three digits leave the three
      digits. */
  lemma AppendGroupDigits(head: string, g: nat)
    requires g < 1000
    ensures WithoutCommas(head + "," + Pad3(g)) == WithoutCommas(head) + Pad3(g)
  {
    WithoutCommasAppend(head + ",", Pad3(g));
    WithoutCommasAppend(head, ",");
    WithoutCommasDigits(Pad3(g));
    assert WithoutCommas(",") == [] by {
      assert ","[..0] == [];
    }
  }

  /** `'{:,.0f}'.format(n)` for a whole `n`: a minus sign before a negative
      number's digits. */
  function FormatInt(n: int): (s: string)
    ensures 1 <= |s|
    ensures s[0] == '-' <==> n < 0
  {
    if n < 0 then "-" + Grouped(-n) else GroupedLead(n); Grouped(n)
  }

  /** Grouped text starts with a digit. */
  lemma {:induction false} GroupedLead(n: nat)
    ensures IsDigit(Grouped(n)[0])
    decreases n
  {
    if n >= 1000 {
      GroupedLead(n / 1000);
      assert Grouped(n)[0] == Grouped(n / 1000)[0];
    }
  }

  /** After the sign, the formatted text is well grouped and its digits read
      back as the number's magnitude. */
  lemma FormatIntDigits(n: int)
    ensures n >= 0 ==> WellGrouped(FormatInt(n))
    ensures n >= 0 ==> AllDigits(WithoutCommas(FormatInt(n))) && DigitsValue(WithoutCommas(FormatInt(n))) == n
    ensures n < 0 ==> WellGrouped(FormatInt(n)[1..])
    ensures n < 0 ==> AllDigits(WithoutCommas(FormatInt(n)[1..])) && DigitsValue(WithoutCommas(FormatInt(n)[1..])) == -n
  {
    var m := if n < 0 then -n else n;
    GroupedShape(m);
    GroupedValue(m);
    if n < 0 {
      var g := Grouped(m);
      assert FormatInt(n)[1..] == ("-" + g)[1..] == g;
    }
  }

  /** Removing the commas and reading the digits gives back the number. */
  lemma GroupedValue(n: nat)
    ensures AllDigits(WithoutCommas(Grouped(n))) && DigitsValue(WithoutCommas(Grouped(n))) == n
  {
    GroupedShape(n);
    DecimalValue(n);
  }

  /** Two of the page's own examples. */
  lemma GroupedExamples()
    ensures Grouped(9999) == "9,999"
    ensures Grouped(999) == "999"
  {
    assert Grouped(9) == "9";
    assert Pad3(999) == "999";
  }

  /** The text `num_to_str` builds: exact digits below 10000, otherwise a
      quotient shown with `decimals` decimals and a suffix. */
  datatype NumText = Plain(text: string) | Scaled(quotient: real, decimals: nat, suffix: string)

  /** `num_to_str(n)` on the whole numbers the page passes it. */
  function NumToStr(n: int): (r: NumText)
    ensures r.Plain? <==> n < 10000
    ensures r.Plain? ==> r.text == FormatInt(n)
    ensures r.Scaled? ==> r.quotient * Scale(r.suffix) == n as real
  {
    if n < 10000 then Plain(FormatInt(n))
    else if n < 999999 then Scaled(n as real / 1000.0, 1, " mil")
    else if n < 999999999 then Scaled(n as real / 1000000.0, 2, " mi")
    else Scaled(n as real / 1000000000.0, 2, " bi")
  }

  /** The divisor behind each suffix. */
  function Scale(suffix: string): real {
    if suffix == " mil" then 1000.0 else if suffix == " mi" then 1000000.0 else 1000000000.0
  }

  /** Exactly one tier applies to every number, and the quotient times the
      tier's divisor is the number. The " mil" tier ends at 999998: 999999 is
      shown in millions. */
  lemma NumToStrTiers(n: int)
    ensures NumToStr(n).Plain? <==> n < 10000
    ensures NumToStr(n).Scaled? ==> NumToStr(n).suffix in {" mil", " mi", " bi"}
    ensures NumToStr(n).Scaled? && NumToStr(n).suffix == " mil" <==> 10000 <= n < 999999
    ensures NumToStr(n).Scaled? && NumToStr(n).suffix == " mi" <==> 999999 <= n < 999999999
    ensures NumToStr(n).Scaled? && NumToStr(n).suffix == " bi" <==> 999999999 <= n
    ensures NumToStr(n).Scaled? ==> NumToStr(n).quotient * Scale(NumToStr(n).suffix) == n as real
  {
  }

  /** The shown quotient lies in [10, 1000) for thousands, in
      [0.999999, 1000) for millions and from 0.999999999 up for billions. */
  lemma NumToStrRanges(n: int)
    ensures NumToStr(n).Scaled? && NumToStr(n).suffix == " mil" ==>
      10.0 <= NumToStr(n).quotient < 1000.0 && NumToStr(n).decimals == 1
    ensures NumToStr(n).Scaled? && NumToStr(n).suffix == " mi" ==>
      0.999999 <= NumToStr(n).quotient < 1000.0 && NumToStr(n).decimals == 2
    ensures NumToStr(n).Scaled? && NumToStr(n).suffix == " bi" ==>
      0.999999999 <= NumToStr(n).quotient && NumToStr(n).decimals == 2
  {
  }

  /** Below 10000 the text is the number itself, grouped by commas. */
  lemma NumToStrPlain(n: int)
    requires n < 10000
    ensures NumToStr(n).Plain?
    ensures n >= 0 ==> WellGrouped(NumToStr(n).text) && AllDigits(WithoutCommas(NumToStr(n).text)) && DigitsValue(WithoutCommas(NumToStr(n).text)) == n
    ensures n < 0 ==> NumToStr(n).text[0] == '-' && AllDigits(WithoutCommas(NumToStr(n).text[1..])) && DigitsValue(WithoutCommas(NumToStr(n).text[1..])) == -n
  {
    if n >= 0 {
      GroupedShape(n);
      GroupedValue(n);
    } else {
      GroupedValue(-n);
      assert NumToStr(n).text[1..] == Grouped(-n);
    }
  }
}
