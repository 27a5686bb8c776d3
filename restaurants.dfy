/**
 * The restaurant table after its columns have been renamed to snake case, and
 * the country table that every page carries (`COUNTRIES`).
 */
module Restaurants {
  import opened Wrappers

  /** An `aggregate_rating` in tenths of a point: 4.9 is 49. The dataset's
      ratings have one decimal, and the pages only compare and sort them. */
  type Rating = int

  /** One restaurant. `country_name` and `unique_cuisine` are derived columns;
      they hold "" until the cleansing derives them. `cuisines` is `None` where
      pandas reads something other than a string (NaN). `switch_to_order_menu`
      is `Some` while the column exists and `None` once it has been dropped. */
  datatype Row = Row(
    restaurant_id: int,
    restaurant_name: string,
    city: string,
    locality: string,
    locality_verbose: string,
    country_code: int,
    country_name: string,
    cuisines: Option<string>,
    unique_cuisine: string,
    votes: int,
    aggregate_rating: Rating,
    rating_color: string,
    switch_to_order_menu: Option<int>)

  /** A data frame, row by row, in index order. */
  type Table = seq<Row>

  /** `COUNTRIES`: the same fifteen entries in every copy. */
  const Countries: map<int, string> := map[
    1 := "India",
    14 := "Australia",
    30 := "Brazil",
    37 := "Canada",
    94 := "Indonesia",
    148 := "New Zealand",
    162 := "Philippines",
    166 := "Qatar",
    184 := "Singapore",
    189 := "South Africa",
    191 := "Sri Lanka",
    208 := "Turkey",
    214 := "United Arab Emirates",
    215 := "England",
    216 := "United States of America"]

  /** `COUNTRIES.get(code, "Unknown")`: never fails, and answers "Unknown"
      exactly for the codes the table does not know, since no country is
      called "Unknown". */
  function CountryName(code: int): (name: string)
    ensures code in Countries ==> name == Countries[code]
    ensures name == "Unknown" <==> code !in Countries
  {
    if code in Countries then Countries[code] else "Unknown"
  }

  /** `COUNTRIES[code]`: raises `KeyError(code)` for an unknown code and
      otherwise agrees with the lenient lookup. */
  function CountryNameStrict(code: int): (r: Result<string, KeyError>)
    ensures r.Success? <==> code in Countries
    ensures r.Success? ==> r.value == CountryName(code) && r.value != "Unknown"
    ensures r.Failure? ==> r.error == KeyError(code)
  {
    if code in Countries then Success(Countries[code]) else Failure(KeyError(code))
  }
}
