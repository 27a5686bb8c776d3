/**
 * The cleansing every page applies to the freshly read table, in this order:
 * derive `country_name` from `country_code`, drop repeated `restaurant_id`s
 * keeping the first, drop `switch_to_order_menu`, strip four text columns and
 * derive `unique_cuisine` from `cuisines`.
 *
 * The functions say what each step computes; the methods perform the steps
 * one row at a time, as the pages perform them on their frame, and are proved
 * against the functions. Page 3 runs the steps in `TransformData`; pages 1
 * and 2 run them on the frame that `DbUtil` holds.
 */
module Cleansing {
  import opened Wrappers
  import opened Text
  import opened Seqs
  import opened Restaurants

  // ---------------------------------------------------------------- one row

  /** The `country_name` that `rename_columns` derives, with the fallback. */
  function WithCountryName(r: Row): Row {
    r.(country_name := CountryName(r.country_code))
  }

  /** `drop(columns=['switch_to_order_menu'])` for one row. */
  function WithoutSwitch(r: Row): Row {
    r.(switch_to_order_menu := None)
  }

  /** `StripColumns`: `restaurant_name`, `city`, `locality` and
      `locality_verbose` lose their surrounding whitespace and nothing else;
      every other column keeps its value. */
  function StripRow(r: Row): (s: Row)
    ensures Trimmed(s.restaurant_name) && exists i :: StrippedAt(r.restaurant_name, s.restaurant_name, i)
    ensures Trimmed(s.city) && exists i :: StrippedAt(r.city, s.city, i)
    ensures Trimmed(s.locality) && exists i :: StrippedAt(r.locality, s.locality, i)
    ensures Trimmed(s.locality_verbose) && exists i :: StrippedAt(r.locality_verbose, s.locality_verbose, i)
    ensures s.(restaurant_name := r.restaurant_name, city := r.city, locality := r.locality,
               locality_verbose := r.locality_verbose) == r
  {
    r.(restaurant_name := Strip(r.restaurant_name), city := Strip(r.city),
       locality := Strip(r.locality), locality_verbose := Strip(r.locality_verbose))
  }

  /** `x.split(",")[0] if isinstance(x, str) else ""`: "" for a missing value;
      otherwise the longest comma-free prefix of the text, which is the whole
      text or is followed by a comma. */
  function UniqueCuisine(c: Option<string>): (u: string)
    ensures c.None? ==> u == ""
    ensures c.Some? ==> u <= c.value && ',' !in u
    ensures c.Some? ==> u == c.value || (|u| < |c.value| && c.value[|u|] == ',')
  {
    if c.Some? then FirstToken(c.value) else ""
  }

  /** `CreateUniqueCuisine` for one row. */
  function WithUniqueCuisine(r: Row): Row {
    r.(unique_cuisine := UniqueCuisine(r.cuisines))
  }

  /** Everything the cleansing does to a row that survives de-duplication. */
  function CleanRow(r: Row): Row {
    WithUniqueCuisine(StripRow(WithoutSwitch(WithCountryName(r))))
  }

  /** A cleansed row: the identifying and numeric columns are untouched, the
      country is named, the text columns are stripped, the cuisine is derived
      and the menu column is gone. */
  lemma CleanRowSpec(r: Row)
    ensures CleanRow(r).restaurant_id == r.restaurant_id
    ensures CleanRow(r).country_code == r.country_code
    ensures CleanRow(r).cuisines == r.cuisines
    ensures CleanRow(r).votes == r.votes
    ensures CleanRow(r).aggregate_rating == r.aggregate_rating
    ensures CleanRow(r).rating_color == r.rating_color
    ensures CleanRow(r).country_name == CountryName(r.country_code)
    ensures CleanRow(r).unique_cuisine == UniqueCuisine(r.cuisines)
    ensures CleanRow(r).switch_to_order_menu == None
    ensures CleanRow(r).restaurant_name == Strip(r.restaurant_name)
    ensures CleanRow(r).city == Strip(r.city)
    ensures CleanRow(r).locality == Strip(r.locality)
    ensures CleanRow(r).locality_verbose == Strip(r.locality_verbose)
  {
  }

  // ---------------------------------------------------------------- whole columns

  /** The `restaurant_id`s present in a table. */
  function Ids(t: Table): set<int> {
    set r | r in t :: r.restaurant_id
  }

  /** Row `i` is the first row of `t` with its `restaurant_id`. */
  ghost predicate IsFirst(t: Table, i: int) {
    0 <= i < |t| && forall j :: 0 <= j < i ==> t[j].restaurant_id != t[i].restaurant_id
  }

  /** The positions `drop_duplicates(subset=['restaurant_id'])` keeps: exactly
      the first occurrences, in increasing order. */
  function FirstPositions(t: Table): (ks: seq<nat>)
    ensures |ks| <= |t|
    ensures forall k :: 0 <= k < |ks| ==> ks[k] < |t|
    ensures StrictlyIncreasing(ks)
    ensures forall i :: i in ks <==> IsFirst(t, i)
  {
    if t == [] then []
    else
      var init, last := t[..|t| - 1], t[|t| - 1];
      var p := FirstPositions(init);
      assert forall i :: 0 <= i < |init| ==> (IsFirst(t, i) <==> IsFirst(init, i));
      if last.restaurant_id in Ids(init) then
        assert !IsFirst(t, |t| - 1) by {
          var x :| x in init && x.restaurant_id == last.restaurant_id;
          var j :| 0 <= j < |init| && init[j] == x;
          assert t[j] == x;
        }
        p
      else
        assert IsFirst(t, |t| - 1) by {
          forall j | 0 <= j < |t| - 1 ensures t[j].restaurant_id != last.restaurant_id {
            assert t[j] in init;
          }
        }
        p + [|t| - 1]
  }

  /** `drop_duplicates(subset=['restaurant_id'])`. */
  function Dedup(t: Table): (r: Table)
    ensures |r| == |FirstPositions(t)| <= |t|
    ensures forall k :: 0 <= k < |r| ==> IsFirst(t, FirstPositions(t)[k]) && r[k] == t[FirstPositions(t)[k]]
  {
    var ks := FirstPositions(t);
    assert forall k :: 0 <= k < |ks| ==> ks[k] in ks;
    Pick(t, ks)
  }

  /** Every row's id has a first occurrence at or before it. */
  lemma {:induction false} FirstOccurrence(t: Table, i: int)
    requires 0 <= i < |t|
    ensures exists j :: 0 <= j <= i && IsFirst(t, j) && t[j].restaurant_id == t[i].restaurant_id
    decreases i
  {
    if !IsFirst(t, i) {
      var j :| 0 <= j < i && t[j].restaurant_id == t[i].restaurant_id;
      FirstOccurrence(t, j);
    }
  }

  /** De-duplication leaves every id exactly once, keeps every id of the
      table, and keeps for each id the row that came first, in table order. */
  lemma DedupSpec(t: Table)
    ensures forall k, l :: 0 <= k < l < |Dedup(t)| ==> Dedup(t)[k].restaurant_id != Dedup(t)[l].restaurant_id
    ensures Ids(Dedup(t)) == Ids(t)
    ensures forall r :: r in Dedup(t) ==> r in t
    ensures forall i :: IsFirst(t, i) ==> t[i] in Dedup(t)
  {
    var ks, d := FirstPositions(t), Dedup(t);
    forall k, l | 0 <= k < l < |d| ensures d[k].restaurant_id != d[l].restaurant_id {
      assert ks[k] < ks[l] && IsFirst(t, ks[l]);
    }
    forall id | id in Ids(t) ensures id in Ids(d) {
      var x :| x in t && x.restaurant_id == id;
      var i :| 0 <= i < |t| && t[i] == x;
      FirstOccurrence(t, i);
      var j :| 0 <= j <= i && IsFirst(t, j) && t[j].restaurant_id == id;
      var k :| 0 <= k < |ks| && ks[k] == j;
      assert d[k] == t[j];
    }
    forall i | IsFirst(t, i) ensures t[i] in d {
      var k :| 0 <= k < |ks| && ks[k] == i;
      assert d[k] == t[i];
    }
  }

  /** Tables whose ids agree row by row hold the same ids. */
  lemma SameIds(t: Table, u: Table)
    requires |t| == |u|
    requires forall i :: 0 <= i < |t| ==> t[i].restaurant_id == u[i].restaurant_id
    ensures Ids(t) == Ids(u)
  {
    forall id | id in Ids(t) ensures id in Ids(u) {
      var x :| x in t && x.restaurant_id == id;
      var i :| 0 <= i < |t| && t[i] == x;
      assert u[i] in u;
    }
    forall id | id in Ids(u) ensures id in Ids(t) {
      var x :| x in u && x.restaurant_id == id;
      var i :| 0 <= i < |u| && u[i] == x;
      assert t[i] in t;
    }
  }

  /** Which rows are first occurrences depends on the ids alone, so the
      earlier derivation of `country_name` does not change what is kept. */
  lemma {:induction false} FirstPositionsByIds(t: Table, u: Table)
    requires |t| == |u|
    requires forall i :: 0 <= i < |t| ==> t[i].restaurant_id == u[i].restaurant_id
    ensures FirstPositions(t) == FirstPositions(u)
  {
    if t != [] {
      var n := |t| - 1;
      FirstPositionsByIds(t[..n], u[..n]);
      SameIds(t[..n], u[..n]);
    }
  }

  /** The key of the `KeyError` the strict lookup raises first: the first
      unknown `country_code` of the table, or `None` when every code is known. */
  function FirstUnknownCode(t: Table): (c: Option<int>)
    ensures c.None? <==> forall i :: 0 <= i < |t| ==> t[i].country_code in Countries
    ensures c.Some? ==> exists i :: FirstUnknownAt(t, i) && t[i].country_code == c.value
  {
    if t == [] then None
    else if t[0].country_code !in Countries then
      assert FirstUnknownAt(t, 0);
      Some(t[0].country_code)
    else
      var c := FirstUnknownCode(t[1..]);
      if c.Some? then
        assert exists i :: FirstUnknownAt(t, i) && t[i].country_code == c.value by {
          var i :| FirstUnknownAt(t[1..], i) && t[1..][i].country_code == c.value;
          assert FirstUnknownAt(t, i + 1);
        }
        c
      else
        c
  }

  /** Row `i` holds the first code that `COUNTRIES` does not know. */
  ghost predicate FirstUnknownAt(t: Table, i: int) {
    && 0 <= i < |t|
    && t[i].country_code !in Countries
    && forall j :: 0 <= j < i ==> t[j].country_code in Countries
  }

  /** The cleansing of pages 1 and 3: never fails. */
  function Cleanse(t: Table): (r: Table)
    ensures |r| == |FirstPositions(t)|
    ensures forall k :: 0 <= k < |r| ==> r[k].restaurant_id == t[FirstPositions(t)[k]].restaurant_id
  {
    FirstPositionsByIds(t, Map(t, WithCountryName));
    Map(Map(Map(Dedup(Map(t, WithCountryName)), WithoutSwitch), StripRow), WithUniqueCuisine)
  }

  /** The cleansing of page 2: the strict lookup runs over every row before
      de-duplication, so one unknown code anywhere in the raw table, even on a
      row that de-duplication would drop, aborts the whole cleansing. */
  function CleanseStrict(t: Table): (r: Result<Table, KeyError>)
    ensures r.Success? <==> forall i :: 0 <= i < |t| ==> t[i].country_code in Countries
    ensures r.Success? ==> r.value == Cleanse(t)
    ensures r.Failure? ==> exists i :: FirstUnknownAt(t, i) && r.error == KeyError(t[i].country_code)
  {
    match FirstUnknownCode(t)
    case Some(c) => Failure(KeyError(c))
    case None => Success(Cleanse(t))
  }

  /** The cleansed table is the table of first occurrences, in their order,
      each cleansed row by row. */
  lemma CleanseRows(t: Table)
    ensures Cleanse(t) == Pick(Map(t, CleanRow), FirstPositions(t))
  {
    var named := Map(t, WithCountryName);
    FirstPositionsByIds(t, named);
    var ks := FirstPositions(t);
    var d := Dedup(named);
    var c := Cleanse(t);
    var expected := Pick(Map(t, CleanRow), ks);
    forall k | 0 <= k < |c| ensures c[k] == expected[k] {
      assert d[k] == named[ks[k]];
    }
  }

  /** Ids are unique after the cleansing, and no id is lost: every row is the
      cleansed form of the first raw row with its id. */
  lemma CleanseSpec(t: Table, c: Table)
    requires c == Cleanse(t)
    ensures |c| == |FirstPositions(t)|
    ensures forall k :: 0 <= k < |c| ==> IsFirst(t, FirstPositions(t)[k])
    ensures forall k :: 0 <= k < |c| ==> c[k] == CleanRow(t[FirstPositions(t)[k]])
    ensures forall k, l :: 0 <= k < l < |c| ==> c[k].restaurant_id != c[l].restaurant_id
    ensures Ids(c) == Ids(t)
  {
    CleanseRows(t);
    CleanFirstsSpec(t, c);
  }

  lemma CleanFirstsSpec(t: Table, c: Table)
    requires c == Pick(Map(t, CleanRow), FirstPositions(t))
    ensures forall k :: 0 <= k < |c| ==> IsFirst(t, FirstPositions(t)[k])
    ensures forall k, l :: 0 <= k < l < |c| ==> c[k].restaurant_id != c[l].restaurant_id
    ensures Ids(c) == Ids(t)
  {
    DedupSpec(t);
    var ks := FirstPositions(t);
    var d := Dedup(t);
    forall k | 0 <= k < |c| ensures c[k].restaurant_id == d[k].restaurant_id {
      CleanRowSpec(t[ks[k]]);
    }
    forall k | 0 <= k < |c| ensures IsFirst(t, ks[k]) {
      assert ks[k] in ks;
    }
    SameIds(c, d);
  }

  /** A strict cleansing that succeeds names every country. */
  lemma CleanseStrictNamesAll(t: Table)
    requires CleanseStrict(t).Success?
    ensures forall r :: r in CleanseStrict(t).value ==> r.country_name != "Unknown"
  {
    var c := CleanseStrict(t).value;
    CleanseSpec(t, c);
    forall r | r in c ensures r.country_name != "Unknown" {
      var k :| 0 <= k < |c| && c[k] == r;
      var i := FirstPositions(t)[k];
      assert r == CleanRow(t[i]);
    }
  }

  // ---------------------------------------------------------------- the steps, in place

  /** A column assignment, performed one row at a time on the frame. */
  method UpdateEach(t: Table, f: Row -> Row) returns (out: Table)
    ensures out == Map(t, f)
  {
    out := t;
    var i := 0;
    while i < |out|
      invariant 0 <= i <= |out| == |t|
      invariant forall k :: 0 <= k < i ==> out[k] == f(t[k])
      invariant forall k :: i <= k < |out| ==> out[k] == t[k]
    {
      out := out[i := f(out[i])];
      i := i + 1;
    }
  }

  /** `df['country_name'] = df['country_code'].apply(lambda x: COUNTRIES[x])`:
      the new column is built row by row and assigned only if no lookup
      raised; the first unknown code raises and leaves the frame as it was. */
  method NameCountriesStrict(t: Table) returns (r: Result<Table, KeyError>)
    ensures r == CleanseStrictNames(t)
  {
    var column := t;
    var i := 0;
    while i < |t|
      invariant 0 <= i <= |t| == |column|
      invariant forall j :: 0 <= j < i ==> t[j].country_code in Countries
      invariant forall k :: 0 <= k < i ==> column[k] == WithCountryName(t[k])
      invariant forall k :: i <= k < |t| ==> column[k] == t[k]
    {
      var name := CountryNameStrict(t[i].country_code);
      if name.Failure? {
        assert FirstUnknownAt(t, i);
        return Failure(name.error);
      }
      column := column[i := t[i].(country_name := name.value)];
      i := i + 1;
    }
    assert column == Map(t, WithCountryName);
    return Success(column);
  }

  /** The outcome of the strict `country_name` derivation alone. */
  function CleanseStrictNames(t: Table): (r: Result<Table, KeyError>)
    ensures r.Success? <==> FirstUnknownCode(t).None?
    ensures r.Failure? ==> r.error == KeyError(FirstUnknownCode(t).value)
    ensures r.Success? ==> r.value == Map(t, WithCountryName)
  {
    match FirstUnknownCode(t)
    case Some(c) =>
      assert forall i, j :: FirstUnknownAt(t, i) && FirstUnknownAt(t, j) ==> i == j;
      Failure(KeyError(c))
    case None => Success(Map(t, WithCountryName))
  }

  /** `drop_duplicates(subset=['restaurant_id'], inplace=True)`: one pass with
      the set of ids seen so far. `kept` are the positions of the kept rows. */
  method DropDuplicateIds(t: Table) returns (out: Table, kept: seq<nat>)
    ensures kept == FirstPositions(t)
    ensures out == Dedup(t)
  {
    out, kept := [], [];
    var seen: set<int> := {};
    var i := 0;
    while i < |t|
      invariant 0 <= i <= |t|
      invariant kept == FirstPositions(t[..i])
      invariant seen == Ids(t[..i])
      invariant out == Pick(t, kept)
    {
      var id := t[i].restaurant_id;
      FirstPositionsStep(t, i);
      if id !in seen {
        PickSnoc(t, kept, i);
        out, kept, seen := out + [t[i]], kept + [i], seen + {id};
      }
      i := i + 1;
    }
    assert t[..|t|] == t;
    assert kept == FirstPositions(t);
  }

  /** One more row extends the first positions by its own position exactly
      when its id was not seen before. */
  lemma FirstPositionsStep(t: Table, i: int)
    requires 0 <= i < |t|
    ensures Ids(t[..i + 1]) == Ids(t[..i]) + {t[i].restaurant_id}
    ensures FirstPositions(t[..i + 1])
      == if t[i].restaurant_id in Ids(t[..i]) then FirstPositions(t[..i]) else FirstPositions(t[..i]) + [i]
  {
    var u := t[..i + 1];
    assert u[..|u| - 1] == t[..i] && u[|u| - 1] == t[i];
    assert u == t[..i] + [t[i]];
  }

  /** Page 3's `transform_data`: the five steps in order on the frame. */
  method TransformData(df: Table) returns (out: Table)
    ensures out == Cleanse(df)
  {
    out := UpdateEach(df, WithCountryName);
    var kept;
    out, kept := DropDuplicateIds(out);
    out := UpdateEach(out, WithoutSwitch);
    out := UpdateEach(out, StripRow);
    out := UpdateEach(out, WithUniqueCuisine);
  }

  /** The `DBUtil` of pages 1 and 2, which keeps the table in `dtframe` and
      cleanses it in place. Page 1 looks countries up with the "Unknown"
      fallback; page 2 indexes `COUNTRIES` directly (`strictLookup`). */
  class DbUtil {
    const strictLookup: bool
    var dtframe: Table
    /** The frame's index labels: a `RangeIndex` once read, and the labels of
        the kept rows after `drop_duplicates`. */
    var index: seq<int>

    ghost predicate Valid()
      reads this
    {
      |index| == |dtframe|
    }

    /** `self.dtframe = None`: no table yet, modelled as an empty one. */
    constructor(strictLookup: bool)
      ensures this.strictLookup == strictLookup
      ensures dtframe == [] && index == []
      ensures Valid()
    {
      this.strictLookup := strictLookup;
      dtframe := [];
      index := [];
    }

    /** `pd.read_csv`: the parsed rows are given; they get a `RangeIndex`. */
    method LoadDataframe(csv: Table)
      modifies this
      ensures dtframe == csv && index == Range(|csv|)
      ensures Valid()
    {
      dtframe := csv;
      index := Range(|csv|);
    }

    /** The `country_name` part of `rename_columns`. */
    method RenameColumns() returns (r: Result<(), KeyError>)
      requires Valid()
      modifies this
      ensures Valid() && index == old(index)
      ensures !strictLookup ==> r.Success?
      ensures strictLookup ==> (r.Success? <==> FirstUnknownCode(old(dtframe)).None?)
      ensures r.Success? ==> dtframe == Map(old(dtframe), WithCountryName)
      ensures r.Failure? ==> dtframe == old(dtframe) && r.error == KeyError(FirstUnknownCode(old(dtframe)).value)
    {
      if strictLookup {
        var named := NameCountriesStrict(dtframe);
        if named.Failure? {
          return Failure(named.error);
        }
        dtframe := named.value;
      } else {
        dtframe := UpdateEach(dtframe, WithCountryName);
      }
      return Success(());
    }

    /** `drop_duplicates(subset=['restaurant_id'], inplace=True)`: the kept
        rows keep their index labels. */
    method DropDuplicates()
      requires Valid()
      modifies this
      ensures Valid()
      ensures dtframe == Dedup(old(dtframe))
      ensures index == Pick(old(index), FirstPositions(old(dtframe)))
    {
      var kept;
      dtframe, kept := DropDuplicateIds(dtframe);
      index := Pick(index, kept);
    }

    /** `drop(columns=['switch_to_order_menu'], inplace=True)`. */
    method DropSwitchColumn()
      requires Valid()
      modifies this
      ensures Valid() && index == old(index)
      ensures dtframe == Map(old(dtframe), WithoutSwitch)
    {
      dtframe := UpdateEach(dtframe, WithoutSwitch);
    }

    method StripColumns()
      requires Valid()
      modifies this
      ensures Valid() && index == old(index)
      ensures dtframe == Map(old(dtframe), StripRow)
    {
      dtframe := UpdateEach(dtframe, StripRow);
    }

    method CreateUniqueCuisine()
      requires Valid()
      modifies this
      ensures Valid() && index == old(index)
      ensures dtframe == Map(old(dtframe), WithUniqueCuisine)
    {
      dtframe := UpdateEach(dtframe, WithUniqueCuisine);
    }

    /** `GeneralCleansing`: the five steps in order. With the strict lookup an
        unknown code raises before anything else has changed the frame. */
    method GeneralCleansing() returns (r: Result<Table, KeyError>)
      requires Valid()
      modifies this
      ensures Valid()
      ensures r == (if strictLookup then CleanseStrict(old(dtframe)) else Success(Cleanse(old(dtframe))))
      ensures r.Success? ==> dtframe == r.value && index == Pick(old(index), FirstPositions(old(dtframe)))
      ensures r.Failure? ==> dtframe == old(dtframe) && index == old(index)
    {
      var raw := dtframe;
      var named := RenameColumns();
      if named.Failure? {
        return Failure(named.error);
      }
      FirstPositionsByIds(raw, dtframe);
      DropDuplicates();
      DropSwitchColumn();
      StripColumns();
      CreateUniqueCuisine();
      return Success(dtframe);
    }
  }

  /** After reading and cleansing, each index label of page 2's table is the
      position in the raw file of the row it holds: the labels increase and
      each names the first raw row with that id. */
  lemma CleansedLabels(raw: Table)
    ensures Pick(Range(|raw|), FirstPositions(raw)) == FirstPositions(raw)
    ensures StrictlyIncreasing(FirstPositions(raw))
    ensures forall k :: 0 <= k < |FirstPositions(raw)| ==> IsFirst(raw, FirstPositions(raw)[k])
  {
    var ks := FirstPositions(raw);
    forall k | 0 <= k < |ks| ensures IsFirst(raw, ks[k]) {
      assert ks[k] in ks;
    }
  }
}
