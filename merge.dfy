/** The bar-plot frame built in `main` (scr/covid_19.py:261-281) from the three
    date-indexed tables, and the columns the bar plot looks up in it
    (lines 116-120). */
module Merge {
  import opened Results
  import opened Strings
  import opened Constants
  import opened Dates
  import opened Reshape

  /** The suffix of line 261 and pandas' default merge suffixes, used by the
      second merge (lines 266-269), which passes none. */
  const RecoveredSuffix: string := "_recovered"
  const DefaultLeftSuffix: string := "_x"
  const DefaultRightSuffix: string := "_y"

  /** The bar bounds of lines 274-275, half a day either side of each date. */
  const LeftColumn: string := "left"
  const RightColumn: string := "right"
  const HalfDayHours: int := 12

  // ---------------------------------------------------------------- outer join

  /** Line 261: `add_suffix` appends `suffix` to every column label. */
  function AddSuffix(t: DateTable, suffix: string): (r: DateTable)
    ensures r.index == t.index && r.body == t.body && |r.columns| == |t.columns|
    ensures forall c :: 0 <= c < |t.columns| ==> r.columns[c] == t.columns[c] + suffix
  {
    DateTable(t.index, seq(|t.columns|, c requires 0 <= c < |t.columns| => t.columns[c] + suffix), t.body)
  }

  /** The labels one side of a merge contributes: those the other side also
      has get this side's suffix, the others are kept as they are. */
  function Suffixed(cols: seq<string>, other: seq<string>, suffix: string): (r: seq<string>)
    ensures |r| == |cols|
    ensures forall c :: 0 <= c < |cols| ==> r[c] == if cols[c] in other then cols[c] + suffix else cols[c]
  {
    seq(|cols|, c requires 0 <= c < |cols| => if cols[c] in other then cols[c] + suffix else cols[c])
  }

  /** The index of an outer join on the index: one side unchanged when the
      other is empty or both are equal, the sorted union of both otherwise. */
  function UnionIndex(a: seq<string>, b: seq<string>): (u: seq<string>)
    requires Distinct(a) && Distinct(b)
    ensures Distinct(u)
    ensures forall x :: x in u <==> x in a || x in b
  {
    if b == [] || a == b then a
    else if a == [] then b
    else
      SortedDistinct(SortedUnique(a + b));
      SortedUnique(a + b)
  }

  /** The cell of column `c` at label `x`: the table's own cell when it has
      a row `x`, NaN when it has none. */
  function CellAt(t: DateTable, x: string, c: nat): Cell
    requires Tabular(t) && c < |t.columns|
  {
    if x in t.index then t.body[IndexOf(t.index, x)][c] else Missing
  }

  /** What one side puts in the outer join's row `x`. */
  function SideRow(t: DateTable, x: string): (row: seq<Cell>)
    requires Tabular(t)
    ensures |row| == |t.columns|
    ensures forall c :: 0 <= c < |t.columns| ==> row[c] == CellAt(t, x, c)
  {
    seq(|t.columns|, c requires 0 <= c < |t.columns| => CellAt(t, x, c))
  }

  /** `l.merge(r, left_index=True, right_index=True, how='outer', suffixes=(ls, rs))`:
      one row per label of either side, the left columns then the right
      columns, labels both sides have suffixed. */
  function OuterJoin(l: DateTable, r: DateTable, ls: string, rs: string): (j: DateTable)
    requires Tabular(l) && Tabular(r) && Distinct(l.index) && Distinct(r.index)
    ensures Tabular(j) && Distinct(j.index)
    ensures |j.columns| == |l.columns| + |r.columns|
  {
    var index := UnionIndex(l.index, r.index);
    DateTable(index, Suffixed(l.columns, r.columns, ls) + Suffixed(r.columns, l.columns, rs),
      seq(|index|, k requires 0 <= k < |index| => SideRow(l, index[k]) + SideRow(r, index[k])))
  }

  /** Any label's cells in an outer join are the cells that label has on
      each side, NaN where a side has no row for it. */
  lemma OuterJoinCellAt(l: DateTable, r: DateTable, ls: string, rs: string, x: string, c: nat)
    requires Tabular(l) && Tabular(r) && Distinct(l.index) && Distinct(r.index)
    requires c < |l.columns| + |r.columns|
    ensures var j := OuterJoin(l, r, ls, rs);
      CellAt(j, x, c) == if c < |l.columns| then CellAt(l, x, c) else CellAt(r, x, c - |l.columns|)
  {
    var j := OuterJoin(l, r, ls, rs);
    if x in j.index {
      var k := IndexOf(j.index, x);
      assert j.body[k] == SideRow(l, x) + SideRow(r, x);
    }
  }

  /** The outer join's index holds the labels of both sides, each once. */
  lemma OuterJoinIndex(l: DateTable, r: DateTable, ls: string, rs: string)
    requires Tabular(l) && Tabular(r) && Distinct(l.index) && Distinct(r.index)
    ensures var j := OuterJoin(l, r, ls, rs);
      && (forall x :: x in j.index <==> x in l.index || x in r.index)
      && |j.index| <= |l.index| + |r.index|
  {
    UnionLength(l.index, r.index);
  }

  /** The outer join's columns are the left labels then the right labels,
      each suffixed when the other side has it too. */
  lemma OuterJoinColumns(l: DateTable, r: DateTable, ls: string, rs: string)
    requires Tabular(l) && Tabular(r) && Distinct(l.index) && Distinct(r.index)
    ensures var j := OuterJoin(l, r, ls, rs);
      && (forall c :: 0 <= c < |l.columns| ==>
            j.columns[c] == if l.columns[c] in r.columns then l.columns[c] + ls else l.columns[c])
      && (forall c :: 0 <= c < |r.columns| ==>
            j.columns[|l.columns| + c] == if r.columns[c] in l.columns then r.columns[c] + rs else r.columns[c])
  {
    var j := OuterJoin(l, r, ls, rs);
    var a, b := Suffixed(l.columns, r.columns, ls), Suffixed(r.columns, l.columns, rs);
    assert j.columns == a + b;
    forall c | 0 <= c < |r.columns| ensures j.columns[|l.columns| + c] == b[c] { }
  }

  /** A list without repeats is no longer than the set of its elements allows. */
  lemma UnionLength(a: seq<string>, b: seq<string>)
    requires Distinct(a) && Distinct(b)
    ensures |UnionIndex(a, b)| <= |a| + |b|
  {
    var u := UnionIndex(a, b);
    DistinctCard(u);
    DistinctCard(a);
    DistinctCard(b);
    assert (set x | x in u) == (set x | x in a) + (set x | x in b);
  }

  lemma {:induction false} DistinctCard(s: seq<string>)
    requires Distinct(s)
    ensures |set x | x in s| == |s|
  {
    if s != [] {
      var n := |s| - 1;
      assert Distinct(s[..n]) by {
        forall i, j | 0 <= i < j < n ensures s[..n][i] != s[..n][j] {
          assert s[..n][i] == s[i] && s[..n][j] == s[j];
        }
      }
      DistinctCard(s[..n]);
      assert s == s[..n] + [s[n]];
      assert (set x | x in s) == (set x | x in s[..n]) + {s[n]};
      assert s[n] !in s[..n] by {
        forall i | 0 <= i < n ensures s[..n][i] != s[n] {
          assert s[..n][i] == s[i];
        }
      }
    }
  }

  // ---------------------------------------------------------------- the merged table

  /** Lines 261-269: the recovered columns suffixed, cases and deaths
      outer-joined with the first two series suffixes, then the recovered
      table outer-joined with pandas' default suffixes. */
  function MergeSeries(cases: DateTable, deaths: DateTable, recovered: DateTable): (m: DateTable)
    requires Tabular(cases) && Tabular(deaths) && Tabular(recovered)
    requires Distinct(cases.index) && Distinct(deaths.index) && Distinct(recovered.index)
    ensures Tabular(m) && Distinct(m.index)
    ensures |m.columns| == |cases.columns| + |deaths.columns| + |recovered.columns|
  {
    var rec := AddSuffix(recovered, RecoveredSuffix);
    OuterJoin(OuterJoin(cases, deaths, Suffixes[0], Suffixes[1]), rec, DefaultLeftSuffix, DefaultRightSuffix)
  }

  /** The merged index holds every date label of the three tables and no
      other, each once, and no more labels than the three tables together. */
  lemma MergeSeriesIndex(cases: DateTable, deaths: DateTable, recovered: DateTable)
    requires Tabular(cases) && Tabular(deaths) && Tabular(recovered)
    requires Distinct(cases.index) && Distinct(deaths.index) && Distinct(recovered.index)
    ensures var m := MergeSeries(cases, deaths, recovered);
      && Distinct(m.index)
      && (forall x :: x in m.index <==> x in cases.index || x in deaths.index || x in recovered.index)
      && |m.index| <= |cases.index| + |deaths.index| + |recovered.index|
  {
    var rec := AddSuffix(recovered, RecoveredSuffix);
    var first := OuterJoin(cases, deaths, Suffixes[0], Suffixes[1]);
    OuterJoinIndex(cases, deaths, Suffixes[0], Suffixes[1]);
    OuterJoinIndex(first, rec, DefaultLeftSuffix, DefaultRightSuffix);
  }

  /** From position `offset` on, `row` holds the cells of `t` at label `x`. */
  predicate SeriesRow(row: seq<Cell>, offset: nat, t: DateTable, x: string)
    requires Tabular(t) && offset + |t.columns| <= |row|
  {
    forall c :: 0 <= c < |t.columns| ==> row[offset + c] == CellAt(t, x, c)
  }

  /** The cases columns come first, then the deaths columns, then the
      recovered ones, and the cell of a series column at a label is that
      series' cell there, NaN when the series lacks the label. */
  lemma MergeSeriesCells(cases: DateTable, deaths: DateTable, recovered: DateTable)
    requires Tabular(cases) && Tabular(deaths) && Tabular(recovered)
    requires Distinct(cases.index) && Distinct(deaths.index) && Distinct(recovered.index)
    ensures forall k :: 0 <= k < |MergeSeries(cases, deaths, recovered).index| ==>
      var row, x := MergeSeries(cases, deaths, recovered).body[k], MergeSeries(cases, deaths, recovered).index[k];
      && SeriesRow(row, 0, cases, x)
      && SeriesRow(row, |cases.columns|, deaths, x)
      && SeriesRow(row, |cases.columns| + |deaths.columns|, recovered, x)
  {
    forall k | 0 <= k < |MergeSeries(cases, deaths, recovered).index|
      ensures var row, x := MergeSeries(cases, deaths, recovered).body[k], MergeSeries(cases, deaths, recovered).index[k];
        && SeriesRow(row, 0, cases, x)
        && SeriesRow(row, |cases.columns|, deaths, x)
        && SeriesRow(row, |cases.columns| + |deaths.columns|, recovered, x)
    {
      MergedRow(cases, deaths, recovered, k);
    }
  }

  /** One row of the merged table. */
  lemma MergedRow(cases: DateTable, deaths: DateTable, recovered: DateTable, k: nat)
    requires Tabular(cases) && Tabular(deaths) && Tabular(recovered)
    requires Distinct(cases.index) && Distinct(deaths.index) && Distinct(recovered.index)
    requires k < |MergeSeries(cases, deaths, recovered).index|
    ensures SeriesRow(MergeSeries(cases, deaths, recovered).body[k], 0, cases, MergeSeries(cases, deaths, recovered).index[k])
    ensures SeriesRow(MergeSeries(cases, deaths, recovered).body[k], |cases.columns|, deaths, MergeSeries(cases, deaths, recovered).index[k])
    ensures SeriesRow(MergeSeries(cases, deaths, recovered).body[k], |cases.columns| + |deaths.columns|, recovered,
      MergeSeries(cases, deaths, recovered).index[k])
  {
    var m := MergeSeries(cases, deaths, recovered);
    var nc, nd := |cases.columns|, |deaths.columns|;
    forall c | 0 <= c < nc ensures m.body[k][0 + c] == CellAt(cases, m.index[k], c) {
      MergedCell(cases, deaths, recovered, k, c);
    }
    forall c | 0 <= c < nd ensures m.body[k][nc + c] == CellAt(deaths, m.index[k], c) {
      MergedDeathsCell(cases, deaths, recovered, k, c);
    }
    forall c | 0 <= c < |recovered.columns| ensures m.body[k][nc + nd + c] == CellAt(recovered, m.index[k], c) {
      MergedRecoveredCell(cases, deaths, recovered, k, c);
    }
  }

  /** One deaths cell of the merged table. */
  lemma MergedDeathsCell(cases: DateTable, deaths: DateTable, recovered: DateTable, k: nat, c: nat)
    requires Tabular(cases) && Tabular(deaths) && Tabular(recovered)
    requires Distinct(cases.index) && Distinct(deaths.index) && Distinct(recovered.index)
    requires k < |MergeSeries(cases, deaths, recovered).index| && c < |deaths.columns|
    ensures MergeSeries(cases, deaths, recovered).body[k][|cases.columns| + c]
      == CellAt(deaths, MergeSeries(cases, deaths, recovered).index[k], c)
  {
    var nc := |cases.columns|;
    MergedCell(cases, deaths, recovered, k, nc + c);
    assert nc + c - nc == c;
  }

  /** One recovered cell of the merged table. */
  lemma MergedRecoveredCell(cases: DateTable, deaths: DateTable, recovered: DateTable, k: nat, c: nat)
    requires Tabular(cases) && Tabular(deaths) && Tabular(recovered)
    requires Distinct(cases.index) && Distinct(deaths.index) && Distinct(recovered.index)
    requires k < |MergeSeries(cases, deaths, recovered).index| && c < |recovered.columns|
    ensures MergeSeries(cases, deaths, recovered).body[k][|cases.columns| + |deaths.columns| + c]
      == CellAt(recovered, MergeSeries(cases, deaths, recovered).index[k], c)
  {
    var nc, nd := |cases.columns|, |deaths.columns|;
    MergedCell(cases, deaths, recovered, k, nc + nd + c);
    assert nc + nd + c - nc - nd == c;
  }

  /** One cell of the merged table. */
  lemma MergedCell(cases: DateTable, deaths: DateTable, recovered: DateTable, k: nat, c: nat)
    requires Tabular(cases) && Tabular(deaths) && Tabular(recovered)
    requires Distinct(cases.index) && Distinct(deaths.index) && Distinct(recovered.index)
    requires k < |MergeSeries(cases, deaths, recovered).index|
    requires c < |cases.columns| + |deaths.columns| + |recovered.columns|
    ensures var m, nc, nd := MergeSeries(cases, deaths, recovered), |cases.columns|, |deaths.columns|;
      m.body[k][c] == if c < nc then CellAt(cases, m.index[k], c)
                      else if c < nc + nd then CellAt(deaths, m.index[k], c - nc)
                      else CellAt(recovered, m.index[k], c - nc - nd)
  {
    var rec := AddSuffix(recovered, RecoveredSuffix);
    var first := OuterJoin(cases, deaths, Suffixes[0], Suffixes[1]);
    var m := MergeSeries(cases, deaths, recovered);
    var x := m.index[k];
    IndexOfDistinct(m.index, k);
    assert m.body[k][c] == CellAt(m, x, c);
    OuterJoinCellAt(first, rec, DefaultLeftSuffix, DefaultRightSuffix, x, c);
    if c < |first.columns| {
      OuterJoinCellAt(cases, deaths, Suffixes[0], Suffixes[1], x, c);
    } else {
      assert CellAt(rec, x, c - |first.columns|) == CellAt(recovered, x, c - |first.columns|);
    }
  }

  /** A table without NaN cells. */
  predicate NoGaps(t: DateTable)
  {
    forall d, c :: 0 <= d < |t.body| && 0 <= c < |t.body[d]| ==> t.body[d][c] != Missing
  }

  /** A date-indexed table made by `clean_data_frame` from a loaded frame with
      distinct column labels meets what the merge lemmas ask of a series: it is
      rectangular, its date labels are distinct and no cell is NaN. */
  lemma CleanTableMergeable(raw: Frame, convert: string -> string)
    requires Rectangular(raw) && SeriesShaped(raw) && Distinct(raw.columns) && CountryColumn in raw.columns
    ensures var dt := CleanDataFrame(raw, convert).value.1; Tabular(dt) && Distinct(dt.index) && NoGaps(dt)
  {
    CleanDataFrameSpec(raw, convert);
    KeepDistinct(raw.columns, DroppedColumns + [CountryColumn]);
  }

  /** For a series without NaN cells, a merged cell is NaN exactly when the
      series has no row for that date. */
  lemma CellAtMissing(t: DateTable, x: string, c: nat)
    requires Tabular(t) && NoGaps(t) && c < |t.columns|
    ensures CellAt(t, x, c) == Missing <==> x !in t.index
  {
  }

  /** For series without NaN cells, a merged cell is NaN exactly when its
      series has no row for that date. */
  lemma MergedGaps(cases: DateTable, deaths: DateTable, recovered: DateTable, k: nat)
    requires Tabular(cases) && Tabular(deaths) && Tabular(recovered)
    requires Distinct(cases.index) && Distinct(deaths.index) && Distinct(recovered.index)
    requires NoGaps(cases) && NoGaps(deaths) && NoGaps(recovered)
    requires k < |MergeSeries(cases, deaths, recovered).index|
    ensures var m := MergeSeries(cases, deaths, recovered);
      forall c :: 0 <= c < |cases.columns| ==> (m.body[k][c] == Missing <==> m.index[k] !in cases.index)
    ensures var m := MergeSeries(cases, deaths, recovered);
      forall c :: |cases.columns| <= c < |cases.columns| + |deaths.columns| ==>
        (m.body[k][c] == Missing <==> m.index[k] !in deaths.index)
    ensures var m := MergeSeries(cases, deaths, recovered);
      forall c :: |cases.columns| + |deaths.columns| <= c < |m.columns| ==>
        (m.body[k][c] == Missing <==> m.index[k] !in recovered.index)
  {
    var m := MergeSeries(cases, deaths, recovered);
    var nc, nd := |cases.columns|, |deaths.columns|;
    forall c | 0 <= c < nc ensures m.body[k][c] == Missing <==> m.index[k] !in cases.index {
      MergedGapAt(cases, deaths, recovered, k, c);
    }
    forall c | nc <= c < nc + nd ensures m.body[k][c] == Missing <==> m.index[k] !in deaths.index {
      MergedGapAt(cases, deaths, recovered, k, c);
    }
    forall c | nc + nd <= c < |m.columns| ensures m.body[k][c] == Missing <==> m.index[k] !in recovered.index {
      MergedGapAt(cases, deaths, recovered, k, c);
    }
  }

  /** One cell of `MergedGaps`. */
  lemma MergedGapAt(cases: DateTable, deaths: DateTable, recovered: DateTable, k: nat, c: nat)
    requires Tabular(cases) && Tabular(deaths) && Tabular(recovered)
    requires Distinct(cases.index) && Distinct(deaths.index) && Distinct(recovered.index)
    requires NoGaps(cases) && NoGaps(deaths) && NoGaps(recovered)
    requires k < |MergeSeries(cases, deaths, recovered).index|
    requires c < |cases.columns| + |deaths.columns| + |recovered.columns|
    ensures var m, nc, nd := MergeSeries(cases, deaths, recovered), |cases.columns|, |deaths.columns|;
      m.body[k][c] == Missing <==>
        if c < nc then m.index[k] !in cases.index
        else if c < nc + nd then m.index[k] !in deaths.index
        else m.index[k] !in recovered.index
  {
    var x := MergeSeries(cases, deaths, recovered).index[k];
    var nc, nd := |cases.columns|, |deaths.columns|;
    MergedCell(cases, deaths, recovered, k, c);
    if c < nc {
      CellAtMissing(cases, x, c);
    } else if c < nc + nd {
      CellAtMissing(deaths, x, c - nc);
    } else {
      CellAtMissing(recovered, x, c - nc - nd);
    }
  }

  // ---------------------------------------------------------------- timestamps and bounds

  /** Line 271: `pd.to_datetime` on the index labels, as the hours since the
      epoch of each date's midnight; the first label that is not a date
      raises. */
  function ToDatetime(labels: seq<string>): (r: Result<seq<int>>)
    ensures r.Ok? <==> forall k :: 0 <= k < |labels| ==> ParseLabel(labels[k]).Some?
    ensures r.Ok? ==> |r.value| == |labels|
    ensures r.Ok? ==> forall k :: 0 <= k < |labels| ==>
      ParseLabel(labels[k]).Some? && r.value[k] == MidnightHours(ParseLabel(labels[k]).value)
    ensures r.Err? ==> exists k :: 0 <= k < |labels| && ParseLabel(labels[k]).None? && r.error == ParseError(labels[k])
  {
    if labels == [] then Ok([])
    else
      match ParseLabel(labels[0])
      case None => Err(ParseError(labels[0]))
      case Some(d) =>
        var rest := ToDatetime(labels[1..]);
        assert forall k :: 1 <= k < |labels| ==> labels[k] == labels[1..][k - 1];
        if rest.Err? then
          var k :| 0 <= k < |labels[1..]| && ParseLabel(labels[1..][k]).None? && rest.error == ParseError(labels[1..][k]);
          assert labels[k + 1] == labels[1..][k];
          Err(rest.error)
        else Ok([MidnightHours(d)] + rest.value)
  }

  /** The merged frame once its index holds timestamps, in hours since
      1970-01-01T00:00. */
  datatype TimeTable = TimeTable(index: seq<int>, columns: seq<string>, body: seq<seq<Cell>>)

  predicate TimeTabular(t: TimeTable)
  {
    |t.body| == |t.index| && forall k :: 0 <= k < |t.body| ==> |t.body[k]| == |t.columns|
  }

  /** `df[name] = values`: every column called `name` is overwritten; when
      there is none, the column is appended. */
  function SetColumn(t: TimeTable, name: string, values: seq<Cell>): (r: TimeTable)
    requires TimeTabular(t) && |values| == |t.index|
    ensures TimeTabular(r) && r.index == t.index
    ensures name in t.columns ==> r.columns == t.columns
    ensures name !in t.columns ==> r.columns == t.columns + [name]
    ensures forall k, c :: 0 <= k < |r.index| && 0 <= c < |r.columns| && r.columns[c] == name ==> r.body[k][c] == values[k]
    ensures forall k, c :: 0 <= k < |r.index| && 0 <= c < |t.columns| && t.columns[c] != name ==> r.body[k][c] == t.body[k][c]
  {
    if name in t.columns then
      TimeTable(t.index, t.columns, seq(|t.index|, k requires 0 <= k < |t.index| =>
        seq(|t.columns|, c requires 0 <= c < |t.columns| => if t.columns[c] == name then values[k] else t.body[k][c])))
    else
      TimeTable(t.index, t.columns + [name], seq(|t.index|, k requires 0 <= k < |t.index| => t.body[k] + [values[k]]))
  }

  /** Lines 274-275: each timestamp moved by `delta` hours. */
  function Shifted(hours: seq<int>, delta: int): (cells: seq<Cell>)
    ensures |cells| == |hours| && forall k :: 0 <= k < |hours| ==> cells[k] == Stamp(hours[k] + delta)
  {
    seq(|hours|, k requires 0 <= k < |hours| => Stamp(hours[k] + delta))
  }

  /** Lines 277-281: every column label with its spaces replaced by `_`. */
  function Renamed(cols: seq<string>): (r: seq<string>)
    ensures |r| == |cols| && forall c :: 0 <= c < |cols| ==> r[c] == ReplaceChar(cols[c], ' ', '_')
  {
    seq(|cols|, c requires 0 <= c < |cols| => ReplaceChar(cols[c], ' ', '_'))
  }

  /** Lines 274-275: `left` set to the timestamps less half a day, then
      `right` to the timestamps plus half a day. */
  function WithBounds(t: TimeTable): (r: TimeTable)
    requires TimeTabular(t)
    ensures TimeTabular(r)
  {
    var t1 := SetColumn(t, LeftColumn, Shifted(t.index, -HalfDayHours));
    SetColumn(t1, RightColumn, Shifted(t.index, HalfDayHours))
  }

  /** The bounded frame keeps the rows, keeps the old columns first and has
      `left` and `right` among its columns. */
  lemma WithBoundsNames(t: TimeTable)
    requires TimeTabular(t)
    ensures var r := WithBounds(t);
      && r.index == t.index
      && |t.columns| <= |r.columns| && r.columns[..|t.columns|] == t.columns
      && LeftColumn in r.columns && RightColumn in r.columns
  {
    var t1 := SetColumn(t, LeftColumn, Shifted(t.index, -HalfDayHours));
    var r := WithBounds(t);
    assert t1.columns[..|t.columns|] == t.columns;
    assert r.columns[..|t1.columns|] == t1.columns;
    assert r.columns[..|t.columns|] == t1.columns[..|t.columns|];
    assert LeftColumn in t1.columns;
    var l :| 0 <= l < |t1.columns| && t1.columns[l] == LeftColumn;
    assert r.columns[l] == LeftColumn;
  }

  /** In the bounded frame every `left` cell is the row's timestamp less half
      a day, every `right` cell the timestamp plus half a day, and every
      other old column is untouched. */
  lemma WithBoundsCells(t: TimeTable)
    requires TimeTabular(t)
    ensures BoundCells(WithBounds(t))
    ensures var r := WithBounds(t);
      forall k, c :: 0 <= k < |r.index| && 0 <= c < |t.columns| && t.columns[c] != LeftColumn && t.columns[c] != RightColumn ==>
        r.body[k][c] == t.body[k][c]
  {
    var t1 := SetColumn(t, LeftColumn, Shifted(t.index, -HalfDayHours));
    var r := WithBounds(t);
    forall k | 0 <= k < |r.index| ensures RowBounds(r.columns, r.body[k], r.index[k]) {
      forall c | 0 <= c < |r.columns|
        ensures r.columns[c] == LeftColumn ==> r.body[k][c] == Stamp(r.index[k] - HalfDayHours)
      {
        if r.columns[c] == LeftColumn {
          assert c < |t1.columns| && t1.columns[c] == LeftColumn;
        }
      }
    }
  }

  /** Line 281: the frame with its labels renamed. */
  function Rename(t: TimeTable): (r: TimeTable)
    ensures r.index == t.index && r.body == t.body && r.columns == Renamed(t.columns)
  {
    TimeTable(t.index, Renamed(t.columns), t.body)
  }

  /** Lines 271-281 on the merged table: re-indexed by timestamps, given the
      bar bounds and renamed. */
  function IndexByTime(m: DateTable): (r: Result<TimeTable>)
    requires Tabular(m)
    ensures r.Ok? <==> forall k :: 0 <= k < |m.index| ==> ParseLabel(m.index[k]).Some?
    ensures r.Ok? ==> TimeTabular(r.value)
  {
    match ToDatetime(m.index)
    case Err(e) => Err(e)
    case Ok(hours) => Ok(Rename(WithBounds(TimeTable(hours, m.columns, m.body))))
  }

  /** The frame of lines 261-281. */
  function BarPlotFrame(cases: DateTable, deaths: DateTable, recovered: DateTable): (r: Result<TimeTable>)
    requires Tabular(cases) && Tabular(deaths) && Tabular(recovered)
    requires Distinct(cases.index) && Distinct(deaths.index) && Distinct(recovered.index)
    ensures r.Ok? <==> forall x :: x in cases.index || x in deaths.index || x in recovered.index ==> ParseLabel(x).Some?
    ensures r.Ok? ==> TimeTabular(r.value)
  {
    MergeSeriesIndex(cases, deaths, recovered);
    AllLabelsParse(MergeSeries(cases, deaths, recovered).index);
    IndexByTime(MergeSeries(cases, deaths, recovered))
  }

  /** Every label parses exactly when every position's label does. */
  lemma AllLabelsParse(labels: seq<string>)
    ensures (forall k :: 0 <= k < |labels| ==> ParseLabel(labels[k]).Some?) <==> forall x :: x in labels ==> ParseLabel(x).Some?
  {
  }

  /** Lines 277-279: the loop collecting the renamed labels. */
  method RenameColumns(cols: seq<string>) returns (names: seq<string>)
    ensures names == Renamed(cols)
  {
    names := [];
    var i := 0;
    while i < |cols|
      invariant 0 <= i <= |cols|
      invariant |names| == i
      invariant forall c :: 0 <= c < i ==> names[c] == ReplaceChar(cols[c], ' ', '_')
    {
      names := names + [ReplaceChar(cols[i], ' ', '_')];
      i := i + 1;
    }
  }

  /** Lines 261-281 step by step, as `main` updates the merged frame. */
  method BuildBarPlotFrame(cases: DateTable, deaths: DateTable, recovered: DateTable) returns (r: Result<TimeTable>)
    requires Tabular(cases) && Tabular(deaths) && Tabular(recovered)
    requires Distinct(cases.index) && Distinct(deaths.index) && Distinct(recovered.index)
    ensures r == BarPlotFrame(cases, deaths, recovered)
  {
    var rec := AddSuffix(recovered, RecoveredSuffix);
    var merged := OuterJoin(OuterJoin(cases, deaths, Suffixes[0], Suffixes[1]), rec, DefaultLeftSuffix, DefaultRightSuffix);
    var stamps := ToDatetime(merged.index);
    if stamps.Err? {
      return Err(stamps.error);
    }
    var hours := stamps.value;
    var t := TimeTable(hours, merged.columns, merged.body);
    ghost var t0 := t;
    t := SetColumn(t, LeftColumn, Shifted(hours, -HalfDayHours));
    t := SetColumn(t, RightColumn, Shifted(hours, HalfDayHours));
    assert t == WithBounds(t0);
    var names := RenameColumns(t.columns);
    r := Ok(TimeTable(t.index, names, t.body));
  }

  /** The re-indexed frame has one row per merged date label, indexed by the
      midnight of that date; its first columns are the merged columns
      renamed, and their cells are the merged cells unless the label was
      `left` or `right`. */
  lemma IndexByTimeKeepsMerged(m: DateTable)
    requires Tabular(m) && IndexByTime(m).Ok?
    ensures var t := IndexByTime(m).value;
      && |t.index| == |m.index|
      && (forall k :: 0 <= k < |m.index| ==> t.index[k] == MidnightHours(ParseLabel(m.index[k]).value))
      && |m.columns| <= |t.columns|
      && (forall c :: 0 <= c < |m.columns| ==> t.columns[c] == ReplaceChar(m.columns[c], ' ', '_'))
      && (forall k, c :: 0 <= k < |m.index| && 0 <= c < |m.columns| && m.columns[c] != LeftColumn && m.columns[c] != RightColumn ==>
            t.body[k][c] == m.body[k][c])
  {
    var t0 := TimeTable(ToDatetime(m.index).value, m.columns, m.body);
    var w := WithBounds(t0);
    WithBoundsNames(t0);
    WithBoundsCells(t0);
    assert IndexByTime(m).value == Rename(w);
    forall c | 0 <= c < |m.columns| ensures w.columns[c] == m.columns[c] {
      assert w.columns[..|m.columns|][c] == m.columns[c];
    }
  }

  /** In one row, with timestamp `hours`, every `left` cell is the
      timestamp less half a day and every `right` cell the timestamp plus
      half a day. */
  predicate RowBounds(cols: seq<string>, row: seq<Cell>, hours: int)
    requires |row| == |cols|
  {
    forall c :: 0 <= c < |cols| ==>
      (cols[c] == LeftColumn ==> row[c] == Stamp(hours - HalfDayHours)) &&
      (cols[c] == RightColumn ==> row[c] == Stamp(hours + HalfDayHours))
  }

  /** Every row of `t` holds the bar bounds of its timestamp. */
  predicate BoundCells(t: TimeTable)
    requires TimeTabular(t)
  {
    forall k :: 0 <= k < |t.index| ==> RowBounds(t.columns, t.body[k], t.index[k])
  }

  /** The re-indexed frame has `left` and `right` columns holding the bar
      bounds. */
  lemma IndexByTimeBounds(m: DateTable)
    requires Tabular(m) && IndexByTime(m).Ok?
    ensures LeftColumn in IndexByTime(m).value.columns && RightColumn in IndexByTime(m).value.columns
    ensures BoundCells(IndexByTime(m).value)
  {
    var t0 := TimeTable(ToDatetime(m.index).value, m.columns, m.body);
    BoundedRenamed(t0);
    assert IndexByTime(m).value == Rename(WithBounds(t0));
  }

  /** Each bar spans one day: in every row, `right` is 24 hours after `left`. */
  lemma BarSpansOneDay(m: DateTable)
    requires Tabular(m) && IndexByTime(m).Ok?
    ensures var t := IndexByTime(m).value;
      forall k, a, b ::
        0 <= k < |t.index| && 0 <= a < |t.columns| && 0 <= b < |t.columns| && t.columns[a] == LeftColumn && t.columns[b] == RightColumn
        ==> t.body[k][a].Stamp? && t.body[k][b].Stamp? && t.body[k][b].hours - t.body[k][a].hours == 24
  {
    IndexByTimeBounds(m);
  }

  /** The bounds step followed by the renaming, on any timestamped frame,
      keeps the index and has `left` and `right` columns holding the bar
      bounds. */
  lemma BoundedRenamed(t0: TimeTable)
    requires TimeTabular(t0)
    ensures Rename(WithBounds(t0)).index == t0.index
    ensures LeftColumn in Rename(WithBounds(t0)).columns && RightColumn in Rename(WithBounds(t0)).columns
    ensures BoundCells(Rename(WithBounds(t0)))
  {
    WithBoundsNames(t0);
    WithBoundsCells(t0);
    RenameKeepsNames(WithBounds(t0));
    RenameKeepsBounds(WithBounds(t0));
  }

  /** Renaming the columns keeps `left` and `right` among them. */
  lemma RenameKeepsNames(w: TimeTable)
    requires LeftColumn in w.columns && RightColumn in w.columns
    ensures LeftColumn in Rename(w).columns && RightColumn in Rename(w).columns
  {
    var t := Rename(w);
    var l :| 0 <= l < |w.columns| && w.columns[l] == LeftColumn;
    var r :| 0 <= r < |w.columns| && w.columns[r] == RightColumn;
    BoundNameAt(w.columns, l);
    BoundNameAt(w.columns, r);
    assert t.columns[l] == LeftColumn && t.columns[r] == RightColumn;
  }

  /** Renaming the columns keeps the bar bounds. */
  lemma RenameKeepsBounds(w: TimeTable)
    requires TimeTabular(w) && BoundCells(w)
    ensures BoundCells(Rename(w))
  {
    forall k | 0 <= k < |w.index| ensures RowBounds(Renamed(w.columns), w.body[k], w.index[k]) {
      RenamedRowBounds(w.columns, w.body[k], w.index[k]);
    }
  }

  /** Renaming the labels keeps the bounds of one row. */
  lemma RenamedRowBounds(cols: seq<string>, row: seq<Cell>, hours: int)
    requires |row| == |cols| && RowBounds(cols, row, hours)
    ensures RowBounds(Renamed(cols), row, hours)
  {
    forall c | 0 <= c < |cols|
      ensures (Renamed(cols)[c] == LeftColumn ==> row[c] == Stamp(hours - HalfDayHours)) &&
              (Renamed(cols)[c] == RightColumn ==> row[c] == Stamp(hours + HalfDayHours))
    {
      BoundNameAt(cols, c);
    }
  }

  /** One renamed label is `left` or `right` exactly when the label was. */
  lemma BoundNameAt(cols: seq<string>, c: nat)
    requires c < |cols|
    ensures Renamed(cols)[c] == LeftColumn <==> cols[c] == LeftColumn
    ensures Renamed(cols)[c] == RightColumn <==> cols[c] == RightColumn
  {
    var r := ReplaceChar(cols[c], ' ', '_');
    if r == LeftColumn || r == RightColumn {
      ReplaceCharFixes(cols[c], r, ' ', '_');
    }
    if cols[c] == LeftColumn || cols[c] == RightColumn {
      ReplaceCharAbsent(cols[c], ' ', '_');
    }
  }

  /** Renaming keeps `left` and `right`, which contain no space, and no other
      label becomes one of them: a renamed label is `left` or `right`
      exactly when the label was. */
  lemma BoundNamesKept(cols: seq<string>)
    ensures LeftColumn in cols ==> LeftColumn in Renamed(cols)
    ensures RightColumn in cols ==> RightColumn in Renamed(cols)
    ensures forall c :: 0 <= c < |cols| ==>
      (Renamed(cols)[c] == LeftColumn <==> cols[c] == LeftColumn) &&
      (Renamed(cols)[c] == RightColumn <==> cols[c] == RightColumn)
  {
    var r := Renamed(cols);
    forall c | 0 <= c < |cols|
      ensures (r[c] == LeftColumn <==> cols[c] == LeftColumn) && (r[c] == RightColumn <==> cols[c] == RightColumn)
    {
      BoundNameAt(cols, c);
    }
    if LeftColumn in cols {
      var c :| 0 <= c < |cols| && cols[c] == LeftColumn;
      assert r[c] == LeftColumn;
    }
    if RightColumn in cols {
      var c :| 0 <= c < |cols| && cols[c] == RightColumn;
      assert r[c] == RightColumn;
    }
  }

  /** Renaming keeps the number and order of the columns, leaves no space in
      any label, leaves a label without spaces as it is, and changes nothing
      when run again. */
  lemma RenamedLabels(cols: seq<string>)
    ensures |Renamed(cols)| == |cols|
    ensures forall c :: 0 <= c < |cols| ==> ' ' !in Renamed(cols)[c]
    ensures forall c :: 0 <= c < |cols| && ' ' !in cols[c] ==> Renamed(cols)[c] == cols[c]
    ensures Renamed(Renamed(cols)) == Renamed(cols)
  {
    var r := Renamed(cols);
    forall c | 0 <= c < |cols| ensures ' ' !in r[c] {
      assert forall i :: 0 <= i < |r[c]| ==> r[c][i] != ' ';
    }
    forall c | 0 <= c < |cols| && ' ' !in cols[c] ensures r[c] == cols[c] {
      assert forall i :: 0 <= i < |cols[c]| ==> cols[c][i] != ' ';
    }
    forall c | 0 <= c < |cols| ensures ReplaceChar(r[c], ' ', '_') == r[c] {
      assert forall i :: 0 <= i < |r[c]| ==> r[c][i] != ' ';
    }
  }

  // ---------------------------------------------------------------- the bar plot's columns

  /** Lines 117-119: the country's spaces replaced by `_`, one key per
      series suffix, then `right` and `left`. */
  function BarPlotKeys(country: string): seq<string>
  {
    var c := ReplaceChar(country, ' ', '_');
    seq(|Suffixes|, i requires 0 <= i < |Suffixes| => c + Suffixes[i]) + [RightColumn, LeftColumn]
  }

  /** The five keys, written out; none holds a space, so each names a
      renamed column. */
  lemma BarPlotKeysExact(country: string)
    ensures var c := ReplaceChar(country, ' ', '_');
      BarPlotKeys(country) == [c + "_cases", c + "_deaths", c + "_recovered", "right", "left"]
    ensures forall i :: 0 <= i < |BarPlotKeys(country)| ==> ' ' !in BarPlotKeys(country)[i]
  {
    var c := ReplaceChar(country, ' ', '_');
    var keys := BarPlotKeys(country);
    assert ' ' !in c by {
      assert forall i :: 0 <= i < |c| ==> c[i] != ' ';
    }
    forall i | 0 <= i < |keys| ensures ' ' !in keys[i] {
      if i < 3 {
        assert keys[i] == c + Suffixes[i];
        assert forall j :: 0 <= j < |keys[i]| ==> keys[i][j] != ' ' by {
          forall j | 0 <= j < |keys[i]| ensures keys[i][j] != ' ' {
            if j < |c| { assert keys[i][j] == c[j]; } else { assert keys[i][j] == Suffixes[i][j - |c|]; }
          }
        }
      }
    }
  }

  /** The columns of the start-up bar plot are the first three keys of its
      country. */
  lemma InitialColumnsAreKeys()
    ensures InitialColumns == BarPlotKeys(InitialCountry)[..3]
  {
    var c := ReplaceChar(InitialCountry, ' ', '_');
    assert c == InitialCountry by {
      assert forall i :: 0 <= i < |InitialCountry| ==> InitialCountry[i] != ' ';
    }
  }

  /** The positions of the columns called `k`, in order. */
  function Positions(cols: seq<string>, k: string): (ps: seq<nat>)
    ensures forall j :: 0 <= j < |ps| ==> ps[j] < |cols| && cols[ps[j]] == k
    ensures forall p :: 0 <= p < |cols| && cols[p] == k ==> p in ps
    ensures k in cols ==> |ps| >= 1
    ensures k !in cols ==> ps == []
  {
    if cols == [] then []
    else
      var n := |cols| - 1;
      Positions(cols[..n], k) + (if cols[n] == k then [n] else [])
  }

  /** The first key that is not a column. */
  function MissingKey(keys: seq<string>, cols: seq<string>): (r: Option<string>)
    ensures r.None? <==> forall j :: 0 <= j < |keys| ==> keys[j] in cols
    ensures r.Some? ==> r.value in keys && r.value !in cols
  {
    if keys == [] then None
    else if keys[0] !in cols then Some(keys[0])
    else MissingKey(keys[1..], cols)
  }

  /** The positions `df[keys]` selects: every column called by each key, key by key. */
  function Picks(cols: seq<string>, keys: seq<string>): (ps: seq<nat>)
    ensures forall j :: 0 <= j < |ps| ==> ps[j] < |cols| && cols[ps[j]] in keys
  {
    if keys == [] then []
    else
      var n := |keys| - 1;
      Picks(cols, keys[..n]) + Positions(cols, keys[n])
  }

  /** Line 120: `df[keys]`, a KeyError naming a key no column has. */
  function SelectColumns(t: TimeTable, keys: seq<string>): (r: Result<TimeTable>)
    requires TimeTabular(t)
    ensures r.Ok? <==> forall j :: 0 <= j < |keys| ==> keys[j] in t.columns
    ensures r.Err? ==> r.error.KeyError? && r.error.key in keys && r.error.key !in t.columns
    ensures r.Ok? ==> TimeTabular(r.value) && r.value.index == t.index
    ensures r.Ok? ==> forall c :: 0 <= c < |r.value.columns| ==> r.value.columns[c] in keys
  {
    match MissingKey(keys, t.columns)
    case Some(k) => Err(KeyError(k))
    case None =>
      var ps := Picks(t.columns, keys);
      Ok(TimeTable(t.index, seq(|ps|, j requires 0 <= j < |ps| => t.columns[ps[j]]),
        seq(|t.index|, k requires 0 <= k < |t.index| => seq(|ps|, j requires 0 <= j < |ps| => t.body[k][ps[j]]))))
  }

  /** `update_bar_plot_source`: the country's columns of the bar-plot frame. */
  function BarPlotSource(t: TimeTable, country: string): (r: Result<TimeTable>)
    requires TimeTabular(t)
    ensures r.Ok? <==> forall j :: 0 <= j < |BarPlotKeys(country)| ==> BarPlotKeys(country)[j] in t.columns
    ensures r.Err? ==> r.error.KeyError? && r.error.key in BarPlotKeys(country) && r.error.key !in t.columns
    ensures r.Ok? ==> TimeTabular(r.value) && r.value.index == t.index
  {
    SelectColumns(t, BarPlotKeys(country))
  }

  /** With distinct column labels, the selection is the keys' columns in the
      keys' order. */
  lemma {:induction false} SelectDistinct(t: TimeTable, keys: seq<string>)
    requires TimeTabular(t) && Distinct(t.columns)
    requires forall j :: 0 <= j < |keys| ==> keys[j] in t.columns
    ensures SelectColumns(t, keys).Ok?
    ensures var s := SelectColumns(t, keys).value;
      && s.columns == keys
      && forall k, j :: 0 <= k < |t.index| && 0 <= j < |keys| ==> s.body[k][j] == t.body[k][IndexOf(t.columns, keys[j])]
  {
    PicksDistinct(t.columns, keys);
  }

  lemma {:induction false} PicksDistinct(cols: seq<string>, keys: seq<string>)
    requires Distinct(cols)
    requires forall j :: 0 <= j < |keys| ==> keys[j] in cols
    ensures |Picks(cols, keys)| == |keys|
    ensures forall j :: 0 <= j < |keys| ==> Picks(cols, keys)[j] == IndexOf(cols, keys[j])
  {
    if keys != [] {
      var n := |keys| - 1;
      var front := keys[..n];
      assert forall j :: 0 <= j < n ==> front[j] == keys[j];
      PicksDistinct(cols, front);
      PositionsDistinct(cols, keys[n]);
      var ps, p := Picks(cols, front), Picks(cols, keys);
      assert p == ps + [IndexOf(cols, keys[n])];
      forall j | 0 <= j < |keys| ensures p[j] == IndexOf(cols, keys[j]) {
        if j < n {
          assert p[j] == ps[j];
          assert ps[j] == IndexOf(cols, front[j]);
          assert front[j] == keys[j];
        } else {
          assert j == |ps| && p[j] == IndexOf(cols, keys[n]);
        }
      }
    }
  }

  lemma {:induction false} PositionsDistinct(cols: seq<string>, k: string)
    requires Distinct(cols) && k in cols
    ensures Positions(cols, k) == [IndexOf(cols, k)]
  {
    var n := |cols| - 1;
    var init := cols[..n];
    assert Distinct(init) by {
      forall i, j | 0 <= i < j < n ensures init[i] != init[j] {
        assert init[i] == cols[i] && init[j] == cols[j];
      }
    }
    if cols[n] == k {
      assert k !in init by {
        forall i | 0 <= i < n ensures init[i] != k { assert init[i] == cols[i]; }
      }
      IndexOfDistinct(cols, n);
    } else {
      assert k in init by {
        var p := IndexOf(cols, k);
        assert p < n && init[p] == k;
      }
      PositionsDistinct(init, k);
      var p := IndexOf(init, k);
      assert cols[p] == k;
      IndexOfDistinct(cols, p);
    }
  }

  /** A country that is a column of all three series, and whose name with the
      recovered suffix is not itself a cases or deaths column, has all five
      keys in the bar-plot frame: its lookup succeeds. */
  lemma BarPlotSourceFound(cases: DateTable, deaths: DateTable, recovered: DateTable, country: string)
    requires Tabular(cases) && Tabular(deaths) && Tabular(recovered)
    requires Distinct(cases.index) && Distinct(deaths.index) && Distinct(recovered.index)
    requires BarPlotFrame(cases, deaths, recovered).Ok?
    requires country in cases.columns && country in deaths.columns && country in recovered.columns
    requires country + RecoveredSuffix !in cases.columns && country + RecoveredSuffix !in deaths.columns
    ensures BarPlotSource(BarPlotFrame(cases, deaths, recovered).value, country).Ok?
  {
    var m := MergeSeries(cases, deaths, recovered);
    assert BarPlotFrame(cases, deaths, recovered) == IndexByTime(m);
    MergedSeriesKeys(cases, deaths, recovered, country);
    assert ' ' !in Suffixes[0] && ' ' !in Suffixes[1] && ' ' !in Suffixes[2];
    RenamedKey(m, country, Suffixes[0]);
    RenamedKey(m, country, Suffixes[1]);
    RenamedKey(m, country, Suffixes[2]);
    IndexByTimeBounds(m);
    KeysCovered(country, IndexByTime(m).value.columns);
  }

  /** The five keys are among the columns when the three series keys,
      `right` and `left` are. */
  lemma KeysCovered(country: string, cols: seq<string>)
    requires var c := ReplaceChar(country, ' ', '_');
      c + Suffixes[0] in cols && c + Suffixes[1] in cols && c + Suffixes[2] in cols
    requires RightColumn in cols && LeftColumn in cols
    ensures forall j :: 0 <= j < |BarPlotKeys(country)| ==> BarPlotKeys(country)[j] in cols
  {
    var c := ReplaceChar(country, ' ', '_');
    var keys := BarPlotKeys(country);
    forall j | 0 <= j < |keys| ensures keys[j] in cols {
      if j < 3 { assert keys[j] == c + Suffixes[j]; }
    }
  }

  /** A merged label made of a name and a suffix without spaces appears,
      renamed, among the re-indexed frame's columns. */
  lemma RenamedKey(m: DateTable, country: string, suffix: string)
    requires Tabular(m) && IndexByTime(m).Ok?
    requires ' ' !in suffix
    requires country + suffix in m.columns
    ensures ReplaceChar(country, ' ', '_') + suffix in IndexByTime(m).value.columns
  {
    RenamedMember(m, country + suffix);
    ReplaceCharAppend(country, suffix, ' ', '_');
    ReplaceCharAbsent(suffix, ' ', '_');
  }

  /** A merged label appears, renamed, among the re-indexed frame's columns. */
  lemma RenamedMember(m: DateTable, name: string)
    requires Tabular(m) && IndexByTime(m).Ok?
    requires name in m.columns
    ensures ReplaceChar(name, ' ', '_') in IndexByTime(m).value.columns
  {
    IndexByTimeKeepsMerged(m);
    var c :| 0 <= c < |m.columns| && m.columns[c] == name;
    assert IndexByTime(m).value.columns[c] == ReplaceChar(name, ' ', '_');
  }

  /** A country in all three series gets its three suffixed columns in the
      merged table. */
  lemma MergedSeriesKeys(cases: DateTable, deaths: DateTable, recovered: DateTable, country: string)
    requires Tabular(cases) && Tabular(deaths) && Tabular(recovered)
    requires Distinct(cases.index) && Distinct(deaths.index) && Distinct(recovered.index)
    requires country in cases.columns && country in deaths.columns && country in recovered.columns
    requires country + RecoveredSuffix !in cases.columns && country + RecoveredSuffix !in deaths.columns
    ensures var m := MergeSeries(cases, deaths, recovered);
      country + Suffixes[0] in m.columns && country + Suffixes[1] in m.columns && country + Suffixes[2] in m.columns
  {
    var rec := AddSuffix(recovered, RecoveredSuffix);
    var first := OuterJoin(cases, deaths, Suffixes[0], Suffixes[1]);
    var m := MergeSeries(cases, deaths, recovered);
    FirstMergeKeys(cases, deaths, country);
    forall i | 0 <= i < |rec.columns| ensures rec.columns[i] != country + Suffixes[0] && rec.columns[i] != country + Suffixes[1] {
      EndsDiffer(country, Suffixes[0], recovered.columns[i]);
      EndsDiffer(country, Suffixes[1], recovered.columns[i]);
    }
    assert country + RecoveredSuffix !in first.columns by {
      forall i | 0 <= i < |first.columns| ensures first.columns[i] != country + RecoveredSuffix {
        SuffixedLabelDiffers(cases, deaths, country, i);
      }
    }
    var e := IndexOf(recovered.columns, country);
    assert rec.columns[e] == country + RecoveredSuffix;
    KeptLabels(first, rec, DefaultLeftSuffix, DefaultRightSuffix, country + Suffixes[0], country + Suffixes[1], e);
  }

  /** Labels of the left side the right side lacks, and a right label the
      left side lacks, keep their names in an outer join. */
  lemma KeptLabels(l: DateTable, r: DateTable, ls: string, rs: string, x: string, y: string, e: nat)
    requires Tabular(l) && Tabular(r) && Distinct(l.index) && Distinct(r.index)
    requires x in l.columns && x !in r.columns && y in l.columns && y !in r.columns
    requires e < |r.columns| && r.columns[e] !in l.columns
    ensures var j := OuterJoin(l, r, ls, rs); x in j.columns && y in j.columns && r.columns[e] in j.columns
  {
    OuterJoinColumns(l, r, ls, rs);
    var j := OuterJoin(l, r, ls, rs);
    var a := IndexOf(l.columns, x);
    var b := IndexOf(l.columns, y);
    assert j.columns[a] == x && j.columns[b] == y;
    assert j.columns[|l.columns| + e] == r.columns[e];
  }

  /** A country both cases and deaths have gets both suffixes in the first
      merge. */
  lemma FirstMergeKeys(cases: DateTable, deaths: DateTable, country: string)
    requires Tabular(cases) && Tabular(deaths) && Distinct(cases.index) && Distinct(deaths.index)
    requires country in cases.columns && country in deaths.columns
    ensures country + Suffixes[0] in OuterJoin(cases, deaths, Suffixes[0], Suffixes[1]).columns
    ensures country + Suffixes[1] in OuterJoin(cases, deaths, Suffixes[0], Suffixes[1]).columns
  {
    var a := IndexOf(cases.columns, country);
    var b := IndexOf(deaths.columns, country);
    JoinLeftSuffixed(cases, deaths, Suffixes[0], Suffixes[1], a);
    JoinRightSuffixed(cases, deaths, Suffixes[0], Suffixes[1], b);
  }

  /** A left label the right side also has appears suffixed in the join. */
  lemma JoinLeftSuffixed(l: DateTable, r: DateTable, ls: string, rs: string, a: nat)
    requires Tabular(l) && Tabular(r) && Distinct(l.index) && Distinct(r.index)
    requires a < |l.columns| && l.columns[a] in r.columns
    ensures l.columns[a] + ls in OuterJoin(l, r, ls, rs).columns
  {
    SuffixedAt(l.columns, r.columns, ls, a);
    OuterJoinLabelAt(l, r, ls, rs, a);
  }

  /** A right label the left side also has appears suffixed in the join. */
  lemma JoinRightSuffixed(l: DateTable, r: DateTable, ls: string, rs: string, b: nat)
    requires Tabular(l) && Tabular(r) && Distinct(l.index) && Distinct(r.index)
    requires b < |r.columns| && r.columns[b] in l.columns
    ensures r.columns[b] + rs in OuterJoin(l, r, ls, rs).columns
  {
    SuffixedAt(r.columns, l.columns, rs, b);
    OuterJoinLabelAt(l, r, ls, rs, |l.columns| + b);
    assert |l.columns| + b - |l.columns| == b;
  }

  /** One label of an outer join: a left label, or a right one. */
  lemma OuterJoinLabelAt(l: DateTable, r: DateTable, ls: string, rs: string, i: nat)
    requires Tabular(l) && Tabular(r) && Distinct(l.index) && Distinct(r.index)
    requires i < |l.columns| + |r.columns|
    ensures i < |l.columns| ==> OuterJoin(l, r, ls, rs).columns[i] == Suffixed(l.columns, r.columns, ls)[i]
    ensures |l.columns| <= i ==>
      OuterJoin(l, r, ls, rs).columns[i] == Suffixed(r.columns, l.columns, rs)[i - |l.columns|]
  {
    var a, b := Suffixed(l.columns, r.columns, ls), Suffixed(r.columns, l.columns, rs);
    assert OuterJoin(l, r, ls, rs).columns == a + b;
  }

  lemma SuffixedAt(cols: seq<string>, other: seq<string>, suffix: string, i: nat)
    requires i < |cols| && cols[i] in other
    ensures Suffixed(cols, other, suffix)[i] == cols[i] + suffix
  {
  }

  lemma SuffixedKept(cols: seq<string>, other: seq<string>, suffix: string, i: nat)
    requires i < |cols| && cols[i] !in other
    ensures Suffixed(cols, other, suffix)[i] == cols[i]
  {
  }

  /** A label ending in `_cases` or `_deaths` is no recovered label. */
  lemma EndsDiffer(a: string, suffix: string, b: string)
    requires suffix == Suffixes[0] || suffix == Suffixes[1]
    ensures a + suffix != b + RecoveredSuffix
  {
    var x, y := a + suffix, b + RecoveredSuffix;
    if |x| == |y| {
      assert x[|x| - 1] == 's' && y[|y| - 1] == 'd';
    }
  }

  /** No label of the first merge is the country's recovered label. */
  lemma SuffixedLabelDiffers(cases: DateTable, deaths: DateTable, country: string, i: nat)
    requires Tabular(cases) && Tabular(deaths) && Distinct(cases.index) && Distinct(deaths.index)
    requires country + RecoveredSuffix !in cases.columns && country + RecoveredSuffix !in deaths.columns
    requires i < |cases.columns| + |deaths.columns|
    ensures OuterJoin(cases, deaths, Suffixes[0], Suffixes[1]).columns[i] != country + RecoveredSuffix
  {
    OuterJoinLabelAt(cases, deaths, Suffixes[0], Suffixes[1], i);
    var nc := |cases.columns|;
    if i < nc {
      SuffixedNotRecovered(cases.columns, deaths.columns, Suffixes[0], country, i);
    } else {
      SuffixedNotRecovered(deaths.columns, cases.columns, Suffixes[1], country, i - nc);
    }
  }

  /** A label one side of the first merge contributes is not the country's
      recovered label, when that side has no such label itself. */
  lemma SuffixedNotRecovered(cols: seq<string>, other: seq<string>, suffix: string, country: string, i: nat)
    requires suffix == Suffixes[0] || suffix == Suffixes[1]
    requires i < |cols| && country + RecoveredSuffix !in cols
    ensures Suffixed(cols, other, suffix)[i] != country + RecoveredSuffix
  {
    if cols[i] in other {
      SuffixedAt(cols, other, suffix, i);
      EndsDiffer(cols[i], suffix, country);
    } else {
      SuffixedKept(cols, other, suffix, i);
    }
  }
}
