# World restaurants dashboard — data layer model

A Streamlit dashboard over the Zomato restaurant table. It has a home page and
three pages: countries, cities and cuisines. Each page reads the CSV, cleans it
and answers a few queries that feed its charts. This project models that data
layer in Dafny:

- **The cleansing pipeline.** Derive `country_name` from `country_code` through
  the fifteen-entry `COUNTRIES` table, keep the first row of every
  `restaurant_id`, drop `switch_to_order_menu`, strip white space from four text
  columns, and derive `unique_cuisine` as the first comma-separated entry of
  `cuisines`.
  - Page 3 runs the pipeline as the free function `transform_data`.
  - Pages 1 and 2 run it as the `DBUtil` class, whose methods update the frame
    in place.
  - Page 1 looks country codes up leniently (`"Unknown"` for an unknown code).
    Page 2 looks them up strictly: the first unknown code raises `KeyError`.
  - Page 2's country filter keeps the old index labels.
- **The queries.** The sorted lists of countries and cuisines, the top-N
  countries and cuisines, the country and cuisine filters, the per-country and
  per-city counts, the best restaurants overall and per cuisine.
- **The home page.** Its headline indicators, its map-marker groups and
  `num_to_str`.

A table is a sequence of `Restaurants.Row`. A rating is held in tenths of a
point, so 4.0 is 40.

pandas' `sort_values` uses an unstable sort by default, so the order of equal
counts is unspecified. Every ranking is therefore stated through
`Grouping.IsRanking`, a relation that any admissible order satisfies:
- one entry per distinct key;
- each count correct;
- counts non-increasing.

Every top-N is stated through `Grouping.IsTopN`. The concrete functions choose
one admissible order, and the properties proved hold for all of them.

Modules:
- `Wrappers`: Option, Result, KeyError.
- `Text`: `str.strip`, substring test, `split(",")[0]`, code-point order,
  `sorted(unique)`.
- `Seqs`: filter, map, pick by positions, subsequences.
- `Sorting`: insertion sort over a total preorder; the order of equal elements is not relied on.
- `Grouping`: group counts, distinct counts, rankings, top-N.
- `Restaurants`: row, `COUNTRIES`, the two lookups.
- `Cleansing`: the pipeline, as functions, as loops and as the `DbUtil` class.
- `Queries`: the per-page query helpers.
- `CityReports`: page 2's filter with labels, and its four per-city
  aggregations.
- `Home`: the home page.

## Model

| member | source | states |
|---|---|---|
| Restaurants.CountryName | pages/1_visao_paises.py:198-208 | `COUNTRIES.get(code, "Unknown")` is the table's name for a known code, and is "Unknown" exactly when the code is unknown |
| Restaurants.CountryNameStrict | pages/2_visao_cidades.py:220-230 | `COUNTRIES[code]` succeeds exactly for known codes, agreeing with the lenient lookup and never "Unknown"; otherwise it fails with `KeyError(code)` |
| Text.Strip | pages/3_visao_culinaria.py:91-94 | `str.strip` returns a trimmed string obtained by removing only white space from both ends |
| Text.StripIdempotent | pages/3_visao_culinaria.py:91-94 | stripping twice is the same as stripping once |
| Text.FirstToken | pages/3_visao_culinaria.py:37 | `s.split(",")[0]` is a prefix of `s` without a comma, and is either the whole of `s` or followed by a comma |
| Text.FirstTokenUnique | pages/3_visao_culinaria.py:37 | any comma-free prefix that is whole or followed by a comma is `split(",")[0]` |
| Text.Contains | pages/1_visao_paises.py:251-252 | the empty string is in every string, and a string that is in `s` is no longer than `s` |
| Text.ContainsOccurs | pages/1_visao_paises.py:251-252 | when `sub in s` holds, `sub` occurs at some position of `s` |
| Text.OccursContains | pages/1_visao_paises.py:251-252 | when `sub` occurs at some position of `s`, `sub in s` holds |
| Text.ContainsAt | pages/1_visao_paises.py:251-252 | Python's `in` between strings holds exactly when the second occurs at some position of the first |
| Text.SortedUnique | pages/1_visao_paises.py:217-218 | `sorted(unique(xs))` holds exactly the values of `xs` |
| Text.SortedUniqueIsSorted | pages/1_visao_paises.py:217-218 | the result of `sorted(unique(xs))` is strictly ascending in code-point order, so it has no repeats |
| Grouping.GroupCount | pages/1_visao_paises.py:265-269 | `groupby(key).count().sort_values(ascending=False)` is a ranking: each distinct key once, each with its number of rows, counts non-increasing |
| Grouping.GroupDistinct | pages/1_visao_paises.py:284-286 | `groupby(key).nunique().sort_values(ascending=False)` ranks each key by its number of distinct values |
| Grouping.TopN | pages/1_visao_paises.py:238 | `head(n)` of a ranking takes its first min(n, entries) keys in order, and none for `n < 1` |
| Grouping.TopNSpec | pages/1_visao_paises.py:230-239 | the first `n` keys of any admissible ranking are `[]` for `n < 1`; otherwise they are min(n, keys) distinct keys in non-increasing count, none beaten by a key left out |
| Grouping.CountsSumToRows | pages/1_visao_paises.py:265-269 | the counts of a group count add up to the number of rows |
| Grouping.DistinctValuesBound | pages/1_visao_paises.py:284-286 | a key never has more distinct values than rows |
| Cleansing.StripRow | pages/3_visao_culinaria.py:80-94 | the four text columns become trimmed by removing only surrounding white space, and every other column is unchanged |
| Cleansing.UniqueCuisine | pages/3_visao_culinaria.py:37 | `unique_cuisine` is "" for a missing `cuisines`; otherwise it is a comma-free prefix, either the whole value or followed by a comma |
| Cleansing.CleanRowSpec | pages/3_visao_culinaria.py:20-38 | one row after the pipeline: the id, code, cuisines, votes, rating and colour are kept; the name, city and localities are stripped; `country_name` and `unique_cuisine` are derived; `switch_to_order_menu` is gone |
| Cleansing.FirstPositions | pages/3_visao_culinaria.py:34 | `drop_duplicates(subset=['restaurant_id'])` keeps exactly the positions where an id first occurs, in increasing order |
| Cleansing.Dedup | pages/3_visao_culinaria.py:34 | `drop_duplicates(subset=['restaurant_id'])` has one row per first occurrence, never more rows than the input, and its k-th row is the input row at the k-th first occurrence |
| Cleansing.Cleanse | pages/3_visao_culinaria.py:20-38 | the cleansed table has one row per first occurrence of an id, and its k-th row keeps the id of the k-th first occurrence |
| Cleansing.FirstOccurrence | pages/3_visao_culinaria.py:34 | every row's id first occurs at or before it |
| Cleansing.DedupSpec | pages/3_visao_culinaria.py:34 | after dedup the ids are pairwise distinct, the same set of ids remains, every kept row is an input row, and every first occurrence is kept |
| Cleansing.FirstPositionsByIds | pages/3_visao_culinaria.py:34-37 | column updates that keep the ids do not change which rows dedup keeps |
| Cleansing.FirstUnknownCode | pages/2_visao_cidades.py:215-216 | finds the first raw row with a code `COUNTRIES` lacks, and is absent exactly when every code is known |
| Cleansing.CleanseRows | pages/3_visao_culinaria.py:20-38 | the cleansed table is, in order, the cleansed form of each first occurrence of an id |
| Cleansing.CleanseSpec | pages/3_visao_culinaria.py:20-38 | the cleansed table has one row per distinct id, with pairwise distinct ids and the same id set as the input; its k-th row is the cleansed k-th first occurrence |
| Cleansing.CleanseStrict | pages/2_visao_cidades.py:166-179 | with the strict lookup the pipeline succeeds exactly when every raw row's code is known, including rows that dedup would drop; on success it equals the lenient result, and on failure it carries the first unknown code |
| Cleansing.CleanseStrictNamesAll | pages/2_visao_cidades.py:220-230 | after a strict cleansing no row is named "Unknown" |
| Cleansing.UpdateEach | pages/3_visao_culinaria.py:91-94 | a column update applied row by row is the map of the update over the table |
| Cleansing.NameCountriesStrict | pages/2_visao_cidades.py:215-216 | the strict `apply` loop stops at the first unknown code with its `KeyError`; otherwise it names every row |
| Cleansing.CleanseStrictNames | pages/2_visao_cidades.py:215-216 | the strict naming succeeds exactly when no code is unknown, and then names every row |
| Cleansing.DropDuplicateIds | pages/3_visao_culinaria.py:34 | a single pass with a set of seen ids keeps exactly the first occurrences, with their positions |
| Cleansing.TransformData | pages/3_visao_culinaria.py:20-38 | `transform_data` returns the cleansed table |
| Cleansing.DbUtil.constructor | pages/1_visao_paises.py:103-107 | starts with an empty frame, with the lenient or strict lookup of its page |
| Cleansing.DbUtil.LoadDataframe | pages/1_visao_paises.py:135-142 | the frame becomes the file's rows with index labels 0..n-1 |
| Cleansing.DbUtil.RenameColumns | pages/2_visao_cidades.py:197-218 | adds `country_name`; the lenient lookup always succeeds, and the strict one fails on the first unknown code and leaves the frame unchanged |
| Cleansing.DbUtil.DropDuplicates | pages/1_visao_paises.py:153 | keeps the first row of each id, together with that row's index label |
| Cleansing.DbUtil.DropSwitchColumn | pages/1_visao_paises.py:154 | removes `switch_to_order_menu` from every row |
| Cleansing.DbUtil.StripColumns | pages/1_visao_paises.py:159-166 | strips the four text columns of every row |
| Cleansing.DbUtil.CreateUniqueCuisine | pages/1_visao_paises.py:168-173 | derives `unique_cuisine` on every row |
| Cleansing.DbUtil.GeneralCleansing | pages/1_visao_paises.py:144-157 | the frame becomes the cleansed table (strict on page 2), and the labels become the raw positions of the kept rows; a failing strict lookup changes nothing |
| Cleansing.CleansedLabels | pages/2_visao_cidades.py:164-179 | after loading and cleansing, the index labels are the increasing raw positions of the first occurrences |
| Queries.AllCountries | pages/1_visao_paises.py:210-218 | `get_all_countries` is strictly ascending and holds exactly the country names present |
| Queries.QtyRestaurantsPerCountry | pages/1_visao_paises.py:255-270 | ranks the countries by their number of restaurants, one entry per country; the counts add up to the number of rows |
| Queries.CountriesWithMoreRestaurants | pages/1_visao_paises.py:220-239 | an admissible top-N of the countries by restaurant count |
| Queries.DefaultCountriesAreOptions | pages/1_visao_paises.py:217-239 | every default country is one of the sidebar's options |
| Queries.DefaultCuisinesOptions | pages/3_visao_culinaria.py:162-168 | a default cuisine is one of the sidebar's options exactly when it is not the "" of rows without cuisines, which the ranking counts and `get_all_cuisines` drops |
| Queries.QtyCitiesPerCountry | pages/1_visao_paises.py:272-287 | ranks the countries by their number of distinct cities |
| Queries.CitiesAtMostRestaurants | pages/1_visao_paises.py:272-287 | a country never has more cities than restaurants |
| Queries.ItemsMatching | pages/1_visao_paises.py:251-253 | keeps, in order and with multiplicity, exactly the rows whose column contains one of the names as a substring |
| Queries.ItemsMatchingNone | pages/1_visao_paises.py:251-253 | an empty selection yields an empty table |
| Queries.ItemsMatchingAll | pages/1_visao_paises.py:251-253 | selecting every value a table holds keeps the whole table |
| Queries.ItemsWithTheseCountries | pages/3_visao_culinaria.py:272-284 | keeps exactly the rows whose country name contains a selected name, in order and with their multiplicity |
| Queries.AllCuisines | pages/3_visao_culinaria.py:286-296 | `get_all_cuisines` is strictly ascending, excludes "", and holds exactly the non-empty cuisines present |
| Queries.CuisinesWithMoreRestaurants | pages/3_visao_culinaria.py:298-318 | an admissible top-N of the cuisines by restaurant count, with "" counted as a cuisine |
| Queries.ItemsWithTheseCuisines | pages/3_visao_culinaria.py:320-333 | keeps exactly the rows whose cuisine contains a selected name, in order and with their multiplicity |
| Queries.MaxRating | pages/3_visao_culinaria.py:349-350 | the first rating after sorting descending is the highest rating present |
| Queries.BestFromCuisine | pages/3_visao_culinaria.py:335-352 | fails with `KeyError(0)` exactly when no row has the cuisine; otherwise returns a non-empty table holding exactly that cuisine's rows at its top rating, with multiplicity, in ascending id order |
| Queries.BestRowsSpec | pages/3_visao_culinaria.py:346-351 | the rows of the cuisine at their highest rating are, with multiplicity, exactly the top-rated rows of that cuisine, and there is at least one |
| Queries.TopRatedIff | pages/3_visao_culinaria.py:349-351 | a row of the cuisine has the first rating after the descending sort exactly when no row of its cuisine is rated higher |
| Queries.TopCuisinesHaveBest | pages/3_visao_culinaria.py:187-194 | every cuisine in a top-N list has a best restaurant, so `dfs[i].loc[0]` does not fail for it |
| Queries.NegateIdsCount | pages/3_visao_culinaria.py:366-370 | negating the ids is a bijection on rows, so it maps each row's multiplicity to its negation's |
| Queries.BestRestaurants | pages/3_visao_culinaria.py:354-371 | a permutation of the input, sorted by rating descending and then by id ascending |
| Queries.NegateBackPermutation | pages/3_visao_culinaria.py:366-370 | negating the ids of a reordering of the negated rows gives a reordering of the original rows |
| Queries.NegateBackOrder | pages/3_visao_culinaria.py:367-370 | sorting negated ids descending and negating back orders equal ratings by ascending id |
| CityReports.ItemsWithTheseCountriesLabelled | pages/2_visao_cidades.py:263-275 | keeps the matching rows with their old labels, as a subsequence of the labelled table and with their multiplicity; increasing labels stay increasing |
| CityReports.LabelsAreRawPositions | pages/2_visao_cidades.py:263-275 | on the cleansed table each kept label is the raw position of the first occurrence that produced the row |
| CityReports.CityCounts | pages/2_visao_cidades.py:66-71 | ranks the (country, city) pairs by number of restaurants; the counts add up to the rows |
| CityReports.TopCities | pages/2_visao_cidades.py:66-73 | `head(10)`: an admissible top 10 of the cities, each with its restaurant count |
| CityReports.CityCountsOfSelection | pages/2_visao_cidades.py:83-101 | after a row filter, a city is listed exactly when one of its rows is selected, and the counts add up to the selected rows |
| CityReports.HighRatedCities | pages/2_visao_cidades.py:83-88 | ranks the cities by their restaurants rated above 4.0, listing exactly the cities that have one |
| CityReports.LowRatedCities | pages/2_visao_cidades.py:96-101 | ranks the cities by their restaurants rated below 2.5, listing exactly the cities that have one |
| CityReports.RatingBandsDisjoint | pages/2_visao_cidades.py:83-96 | no restaurant is in both bands, so together they hold at most all rows |
| CityReports.CuisineVarietyPerCity | pages/2_visao_cidades.py:110-113 | ranks every city by its number of distinct `unique_cuisine` values, with "" counted as a value |
| CityReports.CountingTriples | pages/2_visao_cidades.py:111-113 | counting the distinct (country, city, cuisine) triples per city is the same as counting the distinct cuisines per city |
| CityReports.VarietyAtMostRestaurants | pages/2_visao_cidades.py:110-113 | a city never offers more distinct cuisines than it has restaurants |
| Home.HeadlineIndicators | Home.py:125-144 | the countries, cities, restaurants and cuisines indicators are the numbers of distinct `country_name`, `city`, `restaurant_name` and `unique_cuisine` values of the rows, each at most the number of rows; the country count equals the length of the country list; the cuisine count is the cuisine list's length plus one when "" occurs; the votes indicator is the sum of the votes |
| Home.TotalVotes | Home.py:138-139 | `votes.sum()` is 0 for an empty frame and a single row's votes for one row, and with non-negative votes it is non-negative and at least every row's votes |
| Home.TotalVotesAppend | Home.py:138-139 | the votes of two frames stacked together are the sum of the two frames' votes |
| Home.SelectedVotes | Home.py:138-139 | the votes indicator of the selected countries' rows and the votes of the other countries' rows add up to the whole table's votes |
| Home.AllCountriesSelected | Home.py:56-72 | choosing "Todos" selects every country, which keeps the whole table and so shows the whole table's indicators |
| Home.CountryIndicator | Home.py:127 | the number of distinct countries is the length of `get_all_countries` |
| Home.CuisineIndicator | Home.py:143 | the number of distinct cuisines is the length of `get_all_cuisines`, plus one when some row has no cuisine |
| Home.MarkerGroups | Home.py:154-161 | one map marker per distinct (city, rating, colour) present, never more markers than rows |
| Home.Decimal | Home.py:176-180 | the digit string of a number has no leading zero |
| Home.DecimalValue | Home.py:176-180 | reading the digits back gives the number |
| Home.GroupedShape | Home.py:179-180 | `'{:,.0f}'` is the number's digits in groups of three separated by commas: removing the commas gives the plain digits |
| Home.GroupedValue | Home.py:179-180 | removing the commas from the grouped text and reading the digits gives back the number |
| Home.Grouped | Home.py:180 | the grouped text is never empty, and has a comma exactly when the number is at least 1000 |
| Home.FormatInt | Home.py:180 | the formatted text is never empty, and starts with a minus sign exactly for a negative number |
| Home.FormatIntDigits | Home.py:180 | after the sign the text is well grouped, and without its commas it reads back as the number's magnitude |
| Home.GroupedExamples | Home.py:179-180 | 9999 is written "9,999" and 999 is written "999" |
| Home.NumToStr | Home.py:176-192 | the text is plain exactly below 10000, and then it is the grouped whole number; a scaled quotient times its tier's divisor is the number |
| Home.NumToStrTiers | Home.py:176-192 | exactly one tier applies: below 10000 plain; below 999999 " mil"; below 999999999 " mi"; otherwise " bi"; the quotient times the tier's divisor is the number |
| Home.NumToStrRanges | Home.py:181-191 | the thousands quotient lies in [10, 1000) with one decimal; the millions quotient in [0.999999, 1000) and the billions quotient from 0.999999999 up, both with two decimals |
| Home.NumToStrPlain | Home.py:178-180 | below 10000 the text denotes the number itself, with a minus sign for a negative number |

## Left out

- The Streamlit user interface: sidebars, radio buttons, sliders, columns, Plotly charts, the Folium map and its colours.
  The model starts where the pages hand a selection to the data layer.
- The home page's `dbutil.DbUtil` (imported at Home.py:21) is not part of this model; it is modelled as the pages' `DBUtil`.
  Its `get_all_countries`, `countries_with_more_restaurants` and `get_items_with_these_countries` (Home.py:56-72) are taken to be `Queries.AllCountries`, `Queries.CountriesWithMoreRestaurants` and `Queries.ItemsWithTheseCountries` over the cleansed table, and `color_name` (Home.py:170) only picks a marker colour.
- Reading the CSV (`read_csv`, `extract_data`, `LoadDataframe`'s file access). The rows are a parameter.
- `rename_columns`' column renaming through the `inflection` package.
  The model's rows already carry the snake-case names, and only the derived `country_name` column is modelled.
- `mean_rating_per_country`, `mean_costfor2_per_country`, `best_cuisines` and the medians of `country_map`: they are floating-point means and medians.
- Home.NumToStr: the scaled tiers return the exact quotient, the number of decimals and the suffix, not the rounded `'{:,.1f}'` or `'{:,.2f}'` text; binary floating-point rounding is not modelled.
- The column projections (`loc[:, colunas]`) before the queries: the model returns whole rows, which carry the projected columns unchanged.
- The order of entries with equal counts.
  pandas' default sort is unstable, so the contracts hold for any such order.
  The model's own functions pick one.
- The order of `country_map`'s groups. `groupby` (Home.py:159) sorts its keys, so the groups come out in ascending (city, rating, colour) order.
  Home.MarkerGroups returns them in order of first appearance instead; the marker order is not modelled because each marker is drawn on its own.
- CityReports.HighRatedCities, CityReports.LowRatedCities and CityReports.CuisineVarietyPerCity return the whole ranking.
  The chart's `head(10)` is the same prefix that `CityReports.TopCities` takes of the first chart.
- NaN in the text columns other than `cuisines`, and NaN group keys that `groupby` drops: the text columns are modelled as always present.
- `self.dtframe = None` before loading is modelled as an empty frame.
- Page 3's `transform_data` works on the caller's frame at every step: `rename_columns` (pages/3_visao_culinaria.py:74-76), the in-place `drop_duplicates` and `drop` (lines 34-35), `strip_columns` (lines 91-94) and the `unique_cuisine` assignment (line 37).
  So the caller's frame ends up identical to the returned table. The model returns the new table; that aliasing is not modelled.
- The page-3 main page takes `cuisines[i]` and `dfs[i]` for five columns without checking that five cuisines remain.
  Only the lookup `dfs[i].loc[0]` is modelled, by `Queries.TopCuisinesHaveBest`.
- Home.NumToStr takes whole numbers only. The page passes it counts and a sum of votes, which are whole; a fractional argument is not modelled.
