/** `json_data` (scr/covid_19.py:82-88) without the JSON serialisation: the
    tidy rows of one date, left-joined onto the geometry table by country,
    with the unmatched values filled with the fill string. */
module GeoJoin {
  import opened Results
  import opened Strings
  import opened Constants
  import opened Dates
  import opened Reshape

  /** One row of the geometry table after renaming (line 195): `country`,
      `country_code`, `geometry`; the shapes themselves are left abstract. */
  datatype GeoRow<G> = GeoRow(country: string, code: string, geometry: G)

  /** The `value` column after `fillna`: a count, or the fill string. */
  datatype Value = Cases(n: int) | NoData

  /** One row of the merged snapshot: the geometry row, then the joined tidy
      row's `Country/Region` and `variable` (NaN, i.e. `None`, when unmatched;
      `fillna` only fills `value`), then `value`. */
  datatype SnapRow<G> = SnapRow(country: string, code: string, geometry: G,
                                region: Option<string>, variable: Option<string>, value: Value)

  function Geo<G>(r: SnapRow<G>): GeoRow<G>
  {
    GeoRow(r.country, r.code, r.geometry)
  }

  function Geos<G>(out: seq<SnapRow<G>>): (gs: seq<GeoRow<G>>)
    ensures |gs| == |out| && forall k :: 0 <= k < |out| ==> gs[k] == Geo(out[k])
  {
    seq(|out|, k requires 0 <= k < |out| => Geo(out[k]))
  }

  /** A geometry row joined with a matching tidy row. */
  function Matched<G>(g: GeoRow<G>, t: TidyRow): SnapRow<G>
  {
    SnapRow(g.country, g.code, g.geometry, Some(t.country), Some(t.variable), Cases(t.value))
  }

  /** A geometry row without a match: NaN columns, `value` filled. */
  function Unmatched<G>(g: GeoRow<G>): SnapRow<G>
  {
    SnapRow(g.country, g.code, g.geometry, None, None, NoData)
  }

  // ---------------------------------------------------------------- filtering

  /** Line 83: the tidy rows whose `variable` is `date`, in order. */
  function DateRows(tidy: seq<TidyRow>, date: string): (r: seq<TidyRow>)
    ensures |r| <= |tidy|
    ensures forall x :: x in r <==> x in tidy && x.variable == date
    ensures (forall x :: x in tidy ==> x.variable != date) ==> r == []
  {
    if tidy == [] then []
    else
      var n := |tidy| - 1;
      DateRows(tidy[..n], date) + (if tidy[n].variable == date then [tidy[n]] else [])
  }

  /** The rows a left-join key `c` matches, in order. */
  function Matches(right: seq<TidyRow>, c: string): (m: seq<TidyRow>)
    ensures |m| <= |right|
    ensures forall x :: x in m <==> x in right && x.country == c
    ensures (forall x :: x in right ==> x.country != c) ==> m == []
  {
    if right == [] then []
    else
      var n := |right| - 1;
      Matches(right[..n], c) + (if right[n].country == c then [right[n]] else [])
  }

  /** The filter keeps every row of the date as often as the tidy table has
      it, and no other row. */
  lemma {:induction false} DateRowsMultiset(tidy: seq<TidyRow>, date: string)
    ensures forall x :: multiset(DateRows(tidy, date))[x] == if x.variable == date then multiset(tidy)[x] else 0
  {
    if tidy != [] {
      var n := |tidy| - 1;
      DateRowsMultiset(tidy[..n], date);
      assert tidy == tidy[..n] + [tidy[n]];
    }
  }

  /** The matches of a key are the right rows of that country, each as often
      as the right table has it. */
  lemma {:induction false} MatchesMultiset(right: seq<TidyRow>, c: string)
    ensures forall x :: multiset(Matches(right, c))[x] == if x.country == c then multiset(right)[x] else 0
  {
    if right != [] {
      var n := |right| - 1;
      MatchesMultiset(right[..n], c);
      assert right == right[..n] + [right[n]];
    }
  }

  // ---------------------------------------------------------------- joining

  /** The merge rows a geometry row produces: one per match, in the matches'
      order, or a single unmatched row. */
  function JoinOne<G>(g: GeoRow<G>, right: seq<TidyRow>): (out: seq<SnapRow<G>>)
    ensures |out| == if Matches(right, g.country) == [] then 1 else |Matches(right, g.country)|
    ensures forall k :: 0 <= k < |out| ==> Geo(out[k]) == g
  {
    var m := Matches(right, g.country);
    if m == [] then [Unmatched(g)]
    else seq(|m|, k requires 0 <= k < |m| => Matched(g, m[k]))
  }

  /** Lines 84-87: `merge(how='left')` keeps the geometry rows in order
      and puts each one's matches in the right table's order. */
  function LeftJoin<G>(geo: seq<GeoRow<G>>, right: seq<TidyRow>): (out: seq<SnapRow<G>>)
    ensures |out| >= |geo|
  {
    if geo == [] then []
    else
      var n := |geo| - 1;
      LeftJoin(geo[..n], right) + JoinOne(geo[n], right)
  }

  /** `json_data` as a table: the snapshot of `date` on the map. */
  function Snapshot<G>(tidy: seq<TidyRow>, geo: seq<GeoRow<G>>, date: string): (out: seq<SnapRow<G>>)
    ensures |out| >= |geo|
  {
    LeftJoin(geo, DateRows(tidy, date))
  }

  // ---------------------------------------------------------------- properties

  /** A result row is either a geometry row left unmatched, and then no right
      row names its country, or a geometry row joined with a right row of its
      country. */
  ghost predicate Joined<G>(r: SnapRow<G>, right: seq<TidyRow>)
  {
    || (r == Unmatched(Geo(r)) && forall x :: x in right ==> x.country != r.country)
    || (exists x :: x in right && x.country == r.country && r == Matched(Geo(r), x))
  }

  /** What one geometry row contributes: at least one row, each carrying its
      geometry and each `Joined`. */
  lemma JoinOneRows<G>(g: GeoRow<G>, right: seq<TidyRow>)
    ensures var out := JoinOne(g, right);
      && |out| >= 1
      && (forall k :: 0 <= k < |out| ==> Geo(out[k]) == g)
      && (forall k :: 0 <= k < |out| ==> Joined(out[k], right))
  {
    var m := Matches(right, g.country);
    var out := JoinOne(g, right);
    if m != [] {
      forall k | 0 <= k < |out| ensures Joined(out[k], right) {
        assert m[k] in m;
        assert out[k] == Matched(g, m[k]);
      }
    } else {
      assert out[0] == Unmatched(g);
    }
  }

  /** A left join loses no geometry row and invents none: the geometry rows of
      the result are exactly those of the geometry table, and there are at
      least as many result rows as geometry rows. */
  lemma {:induction false} LeftJoinKeepsGeometry<G>(geo: seq<GeoRow<G>>, right: seq<TidyRow>)
    ensures |LeftJoin(geo, right)| >= |geo|
    ensures forall g :: g in Geos(LeftJoin(geo, right)) <==> g in geo
  {
    if geo != [] {
      var n := |geo| - 1;
      var front, last := LeftJoin(geo[..n], right), JoinOne(geo[n], right);
      LeftJoinKeepsGeometry(geo[..n], right);
      JoinOneRows(geo[n], right);
      assert LeftJoin(geo, right) == front + last;
      assert Geos(front + last) == Geos(front) + Geos(last);
      assert geo == geo[..n] + [geo[n]];
      forall g ensures g in Geos(last) <==> g == geo[n] {
        if g == geo[n] { assert Geos(last)[0] == g; }
      }
    }
  }

  lemma {:induction false} LeftJoinRowAt<G>(geo: seq<GeoRow<G>>, right: seq<TidyRow>, k: nat)
    requires k < |LeftJoin(geo, right)|
    ensures Joined(LeftJoin(geo, right)[k], right)
  {
    var n := |geo| - 1;
    var front, last := LeftJoin(geo[..n], right), JoinOne(geo[n], right);
    assert LeftJoin(geo, right) == front + last;
    if k < |front| {
      LeftJoinRowAt(geo[..n], right, k);
    } else {
      JoinOneRows(geo[n], right);
      assert LeftJoin(geo, right)[k] == last[k - |front|];
    }
  }

  /** Every result row of a left join is `Joined`. */
  lemma LeftJoinRows<G>(geo: seq<GeoRow<G>>, right: seq<TidyRow>)
    ensures forall k :: 0 <= k < |LeftJoin(geo, right)| ==> Joined(LeftJoin(geo, right)[k], right)
  {
    forall k | 0 <= k < |LeftJoin(geo, right)| {
      LeftJoinRowAt(geo, right, k);
    }
  }

  /** The join keys of the right table, in order. */
  function RightKeys(right: seq<TidyRow>): (ks: seq<string>)
    ensures |ks| == |right| && forall j :: 0 <= j < |right| ==> ks[j] == right[j].country
  {
    seq(|right|, j requires 0 <= j < |right| => right[j].country)
  }

  /** No two right rows share a country. */
  predicate UniqueCountries(right: seq<TidyRow>)
  {
    forall i, j :: 0 <= i < j < |right| ==> right[i].country != right[j].country
  }

  lemma {:induction false} MatchesUnique(right: seq<TidyRow>, c: string)
    requires UniqueCountries(right)
    ensures |Matches(right, c)| <= 1
    ensures forall j :: 0 <= j < |right| && right[j].country == c ==> Matches(right, c) == [right[j]]
  {
    if right != [] {
      var n := |right| - 1;
      var init := right[..n];
      assert UniqueCountries(init) by {
        forall i, j | 0 <= i < j < |init| ensures init[i].country != init[j].country {
          assert init[i] == right[i] && init[j] == right[j];
        }
      }
      MatchesUnique(init, c);
      if right[n].country == c {
        MatchesUniqueLast(right, c);
      } else {
        assert Matches(right, c) == Matches(init, c);
        forall j | 0 <= j < |right| && right[j].country == c ensures Matches(right, c) == [right[j]] {
          assert init[j] == right[j];
        }
      }
    }
  }

  /** The case of `MatchesUnique` where the last row has the key. */
  lemma MatchesUniqueLast(right: seq<TidyRow>, c: string)
    requires UniqueCountries(right) && right != [] && right[|right| - 1].country == c
    ensures Matches(right, c) == [right[|right| - 1]]
    ensures forall j :: 0 <= j < |right| && right[j].country == c ==> j == |right| - 1
  {
    var n := |right| - 1;
    var init := right[..n];
    forall x | x in init ensures x.country != c {
      var i :| 0 <= i < |init| && init[i] == x;
      assert right[i] == x;
    }
    assert Matches(init, c) == [];
  }

  /** With at most one right row per country, a geometry row gives one row:
      its join with the right row of its country, or the unmatched row. */
  lemma JoinOneUnique<G>(g: GeoRow<G>, right: seq<TidyRow>)
    requires UniqueCountries(right)
    ensures |JoinOne(g, right)| == 1
    ensures forall j :: 0 <= j < |right| && right[j].country == g.country ==> JoinOne(g, right)[0] == Matched(g, right[j])
    ensures g.country !in RightKeys(right) ==> JoinOne(g, right)[0] == Unmatched(g)
  {
    MatchesUnique(right, g.country);
    var m := Matches(right, g.country);
    if m != [] {
      assert m[0] in right;
      var j :| 0 <= j < |right| && right[j] == m[0];
      assert RightKeys(right)[j] == g.country;
    }
  }

  /** With at most one right row per country, the join is row for row:
      result row `i` is what geometry row `i` alone produces. */
  lemma {:induction false} LeftJoinUnique<G>(geo: seq<GeoRow<G>>, right: seq<TidyRow>)
    requires UniqueCountries(right)
    ensures |LeftJoin(geo, right)| == |geo|
    ensures forall i :: 0 <= i < |geo| ==> LeftJoin(geo, right)[i] == JoinOne(geo[i], right)[0]
  {
    if geo != [] {
      var n := |geo| - 1;
      var init := geo[..n];
      LeftJoinUnique(init, right);
      JoinOneUnique(geo[n], right);
      var front, last := LeftJoin(init, right), JoinOne(geo[n], right);
      var out := LeftJoin(geo, right);
      assert out == front + last;
      forall i | 0 <= i < |geo| ensures out[i] == JoinOne(geo[i], right)[0] {
        if i < n {
          assert out[i] == front[i];
          assert front[i] == JoinOne(init[i], right)[0];
          assert geo[i] == init[i];
        } else {
          assert out[i] == last[0];
          assert i == n;
        }
      }
    }
  }

  /** Hence result row `i` is geometry row `i` joined with the right row of
      its country when there is one, and unmatched otherwise. */
  lemma LeftJoinUniqueRows<G>(geo: seq<GeoRow<G>>, right: seq<TidyRow>)
    requires UniqueCountries(right)
    ensures |LeftJoin(geo, right)| == |geo|
    ensures forall i, j :: 0 <= i < |geo| && 0 <= j < |right| && right[j].country == geo[i].country ==>
      LeftJoin(geo, right)[i] == Matched(geo[i], right[j])
    ensures forall i :: 0 <= i < |geo| && geo[i].country !in RightKeys(right) ==> LeftJoin(geo, right)[i] == Unmatched(geo[i])
  {
    LeftJoinUnique(geo, right);
    forall i | 0 <= i < |geo| {
      JoinOneUnique(geo[i], right);
    }
  }

  /** A date no tidy row has gives every geometry row once, unmatched. */
  lemma SnapshotOfAbsentDate<G>(tidy: seq<TidyRow>, geo: seq<GeoRow<G>>, date: string)
    requires forall k :: 0 <= k < |tidy| ==> tidy[k].variable != date
    ensures Snapshot(tidy, geo, date) == seq(|geo|, i requires 0 <= i < |geo| => Unmatched(geo[i]))
  {
    var right := DateRows(tidy, date);
    forall x | x in tidy ensures x.variable != date {
      var k :| 0 <= k < |tidy| && tidy[k] == x;
    }
    LeftJoinUnique(geo, right);
    forall i | 0 <= i < |geo| ensures Snapshot(tidy, geo, date)[i] == Unmatched(geo[i]) {
      assert Matches(right, geo[i].country) == [];
    }
  }

  /** No two tidy rows share both country and date. */
  predicate UniquePairs(tidy: seq<TidyRow>)
  {
    forall i, j :: 0 <= i < j < |tidy| ==> tidy[i].country != tidy[j].country || tidy[i].variable != tidy[j].variable
  }

  lemma {:induction false} DateRowsUnique(tidy: seq<TidyRow>, date: string)
    requires UniquePairs(tidy)
    ensures UniqueCountries(DateRows(tidy, date))
  {
    if tidy != [] {
      var n := |tidy| - 1;
      var init := tidy[..n];
      assert UniquePairs(init) by {
        forall i, j | 0 <= i < j < |init| ensures init[i].country != init[j].country || init[i].variable != init[j].variable {
          assert init[i] == tidy[i] && init[j] == tidy[j];
        }
      }
      DateRowsUnique(init, date);
      var front := DateRows(init, date);
      if tidy[n].variable == date {
        forall x | x in front ensures x.country != tidy[n].country {
          var i :| 0 <= i < |init| && init[i] == x;
          assert tidy[i] == x;
        }
        var r := front + [tidy[n]];
        forall i, j | 0 <= i < j < |r| ensures r[i].country != r[j].country {
          if j == |front| { assert r[i] in front; }
        }
      }
    }
  }

  /** A country is a join key of a date's rows exactly when some tidy row
      has that country and that date. */
  lemma DateRowsKeys(tidy: seq<TidyRow>, date: string, c: string)
    ensures c in RightKeys(DateRows(tidy, date)) <==>
      exists k :: 0 <= k < |tidy| && tidy[k].country == c && tidy[k].variable == date
  {
    var right := DateRows(tidy, date);
    if c in RightKeys(right) {
      var j :| 0 <= j < |right| && RightKeys(right)[j] == c;
      assert right[j] in right;
      var k :| 0 <= k < |tidy| && tidy[k] == right[j];
    }
    if exists k :: 0 <= k < |tidy| && tidy[k].country == c && tidy[k].variable == date {
      var k :| 0 <= k < |tidy| && tidy[k].country == c && tidy[k].variable == date;
      assert tidy[k] in right;
      var j :| 0 <= j < |right| && right[j] == tidy[k];
      assert RightKeys(right)[j] == c;
    }
  }

  /** Row `i` of a snapshot, with one tidy row per (country, date). */
  lemma SnapshotRow<G>(tidy: seq<TidyRow>, geo: seq<GeoRow<G>>, date: string, i: nat)
    requires UniquePairs(tidy) && i < |geo|
    ensures |Snapshot(tidy, geo, date)| == |geo|
    ensures Geo(Snapshot(tidy, geo, date)[i]) == geo[i]
    ensures forall k :: 0 <= k < |tidy| && tidy[k].country == geo[i].country && tidy[k].variable == date ==>
      Snapshot(tidy, geo, date)[i].value == Cases(tidy[k].value)
    ensures Snapshot(tidy, geo, date)[i].value == NoData <==>
      forall k :: 0 <= k < |tidy| ==> tidy[k].country != geo[i].country || tidy[k].variable != date
  {
    var right := DateRows(tidy, date);
    DateRowsUnique(tidy, date);
    LeftJoinUnique(geo, right);
    JoinOneUnique(geo[i], right);
    DateRowsKeys(tidy, date, geo[i].country);
    var r := JoinOne(geo[i], right)[0];
    assert Snapshot(tidy, geo, date)[i] == r;
    forall k | 0 <= k < |tidy| && tidy[k].country == geo[i].country && tidy[k].variable == date
      ensures r.value == Cases(tidy[k].value)
    {
      assert tidy[k] in right;
      var j :| 0 <= j < |right| && right[j] == tidy[k];
    }
    if geo[i].country in RightKeys(right) {
      var j :| 0 <= j < |right| && RightKeys(right)[j] == geo[i].country;
      assert r == Matched(geo[i], right[j]);
    }
  }

  /** With one tidy row per (country, date), the snapshot of `date` has one row
      per geometry row, in order: its count for that date when the tidy table
      has one, the fill value otherwise. */
  lemma SnapshotValues<G>(tidy: seq<TidyRow>, geo: seq<GeoRow<G>>, date: string)
    requires UniquePairs(tidy)
    ensures var out := Snapshot(tidy, geo, date);
      && |out| == |geo|
      && (forall i :: 0 <= i < |geo| ==> Geo(out[i]) == geo[i])
      && (forall i, k :: 0 <= i < |geo| && 0 <= k < |tidy| && tidy[k].country == geo[i].country && tidy[k].variable == date ==>
            out[i].value == Cases(tidy[k].value))
      && (forall i :: 0 <= i < |geo| ==>
            (out[i].value == NoData <==> forall k :: 0 <= k < |tidy| ==> tidy[k].country != geo[i].country || tidy[k].variable != date))
  {
    DateRowsUnique(tidy, date);
    LeftJoinUnique(geo, DateRows(tidy, date));
    forall i | 0 <= i < |geo| {
      SnapshotRow(tidy, geo, date, i);
    }
  }

  /** A melt of groups with distinct names and distinct date columns has one
      row per (country, date). */
  lemma MeltUniquePairs(t: Wide)
    requires WellShaped(t) && Distinct(t.dates) && Distinct(Countries(t.rows))
    ensures UniquePairs(Melt(t))
  {
    MeltShape(t);
    var m, n := Melt(t), |t.rows|;
    forall i, j | 0 <= i < j < |m| ensures m[i].country != m[j].country || m[i].variable != m[j].variable {
      DivModSplit(i, n, |t.dates|);
      DivModSplit(j, n, |t.dates|);
    }
  }

  /** When the converter gives the groups distinct names, the tidy table of
      `clean_data_frame` has one row per (country, date), so `SnapshotValues`
      applies to it. */
  lemma CleanTidyUnique(raw: Frame, convert: string -> string)
    requires Rectangular(raw) && SeriesShaped(raw) && Distinct(raw.columns) && CountryColumn in raw.columns
    requires Distinct(CleanDataFrame(raw, convert).value.1.columns)
    ensures UniquePairs(CleanDataFrame(raw, convert).value.0)
  {
    GroupedDates(raw);
    var g := GroupBySum(DropColumns(raw, DroppedColumns)).value;
    var named := ConvertCountries(g, convert);
    assert CleanDataFrame(raw, convert) == Ok((Melt(named), DateIndexed(named)));
    DateIndexedCells(named);
    KeepDistinct(raw.columns, DroppedColumns + [CountryColumn]);
    MeltUniquePairs(named);
  }

  // ---------------------------------------------------------------- callers

  /** Lines 99-106 (`update_map_plot_source`): the slider date rendered with
      the slider format, then shortened by `date_formatter`, selects the rows. */
  function MapSource<G>(tidy: seq<TidyRow>, geo: seq<GeoRow<G>>, d: Date): (r: Result<seq<SnapRow<G>>>)
    requires ValidDate(d) && FourDigitYear(d)
    ensures r.Ok? && |r.value| >= |geo|
  {
    DateFormatterOfStrftime(d);
    match DateFormatter(Strftime(d))
    case Err(e) => Err(e)
    case Ok(shown) => Ok(Snapshot(tidy, geo, shown))
  }

  /** The slider's snapshot is the snapshot of the date's own series label. */
  lemma MapSourceUsesLabel<G>(tidy: seq<TidyRow>, geo: seq<GeoRow<G>>, d: Date)
    requires ValidDate(d) && FourDigitYear(d)
    ensures MapSource(tidy, geo, d) == Ok(Snapshot(tidy, geo, Label(d)))
  {
    DateFormatterOfStrftime(d);
  }

  /** Line 201 builds the first snapshot from the unshortened slider format
      (`01/05/2020`), which is never a series label (`1/5/20`): when the
      series' date columns all read as dates, every country gets the fill value. */
  lemma InitialSnapshotIsEmpty<G>(tidy: seq<TidyRow>, geo: seq<GeoRow<G>>, d: Date)
    requires ValidDate(d) && FourDigitYear(d)
    requires forall k :: 0 <= k < |tidy| ==> ParseLabel(tidy[k].variable).Some?
    ensures Snapshot(tidy, geo, Strftime(d)) == seq(|geo|, i requires 0 <= i < |geo| => Unmatched(geo[i]))
  {
    forall k | 0 <= k < |tidy| ensures tidy[k].variable != Strftime(d) {
      ParseLabelShort(tidy[k].variable);
    }
    SnapshotOfAbsentDate(tidy, geo, Strftime(d));
  }
}
