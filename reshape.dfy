/** `clean_data_frame` (scr/covid_19.py:39-56): drop the metadata columns, group
    the rows by raw country name summing every date column, convert the names,
    and produce the tidy (melted) table and the date-indexed (transposed) table. */
module Reshape {
  import opened Results
  import opened Strings
  import opened Constants

  /** A cell of a data frame; `Missing` is pandas' NaN. */
  datatype Cell = Str(s: string) | Num(n: int) | Missing | Stamp(hours: int)

  /** A data frame as loaded from a series file: column labels and rows. */
  datatype Frame = Frame(columns: seq<string>, rows: seq<seq<Cell>>)

  predicate Rectangular(f: Frame)
  {
    forall i :: 0 <= i < |f.rows| ==> |f.rows[i]| == |f.columns|
  }

  /** What a series file holds outside its metadata columns: names (or nothing)
      under the country column, counts (or nothing) under the date columns. */
  predicate SeriesShaped(f: Frame)
  {
    forall i, j :: 0 <= i < |f.rows| && 0 <= j < |f.columns| && j < |f.rows[i]| && f.columns[j] !in DroppedColumns ==>
      if f.columns[j] == CountryColumn then f.rows[i][j].Str? || f.rows[i][j].Missing?
      else f.rows[i][j].Num? || f.rows[i][j].Missing?
  }

  // ---------------------------------------------------------------- dropping

  function KeptCount(cols: seq<string>, drop: seq<string>): nat
  {
    if cols == [] then 0 else (if cols[0] in drop then 0 else 1) + KeptCount(cols[1..], drop)
  }

  /** The entries of `xs` whose column label is not in `drop`, in order: the
      list comprehension of line 40 when `xs` is the labels themselves, the
      projection `df[cols_to_keep]` of line 41 when `xs` is a row. */
  function Keep<T>(cols: seq<string>, xs: seq<T>, drop: seq<string>): (r: seq<T>)
    requires |cols| == |xs|
    ensures |r| == KeptCount(cols, drop)
  {
    if cols == [] then []
    else (if cols[0] in drop then [] else [xs[0]]) + Keep(cols[1..], xs[1..], drop)
  }

  lemma {:induction false} KeepLabels(cols: seq<string>, drop: seq<string>)
    ensures forall c :: c in Keep(cols, cols, drop) <==> c in cols && c !in drop
  {
    if cols != [] {
      KeepLabels(cols[1..], drop);
      assert forall c :: c in cols <==> c == cols[0] || c in cols[1..];
    }
  }

  lemma {:induction false} KeepDistinct(cols: seq<string>, drop: seq<string>)
    requires Distinct(cols)
    ensures Distinct(Keep(cols, cols, drop))
  {
    if cols != [] {
      assert Distinct(cols[1..]) by {
        forall i, j | 0 <= i < j < |cols[1..]| ensures cols[1..][i] != cols[1..][j] { assert cols[i + 1] != cols[j + 1]; }
      }
      KeepDistinct(cols[1..], drop);
      KeepLabels(cols[1..], drop);
      assert cols[0] !in cols[1..] by {
        forall j | 0 <= j < |cols[1..]| ensures cols[1..][j] != cols[0] { assert cols[0] != cols[j + 1]; }
      }
    }
  }

  lemma IndexOfCons(a: string, s: seq<string>, c: string)
    requires c in s && a != c
    ensures IndexOf([a] + s, c) == 1 + IndexOf(s, c)
  {
    assert ([a] + s)[1..] == s;
  }

  /** The cell a kept row holds under label `c` is the one the full row holds under `c`. */
  lemma {:induction false} KeepFirst<T>(cols: seq<string>, xs: seq<T>, drop: seq<string>, c: string)
    requires |cols| == |xs| && c in cols && c !in drop
    ensures c in Keep(cols, cols, drop)
    ensures IndexOf(Keep(cols, cols, drop), c) < |Keep(cols, xs, drop)|
    ensures Keep(cols, xs, drop)[IndexOf(Keep(cols, cols, drop), c)] == xs[IndexOf(cols, c)]
  {
    if cols[0] == c {
      KeepFirstHead(cols, xs, drop, c);
    } else {
      KeepFirst(cols[1..], xs[1..], drop, c);
      KeepFirstTail(cols, xs, drop, c);
    }
  }

  lemma KeepFirstHead<T>(cols: seq<string>, xs: seq<T>, drop: seq<string>, c: string)
    requires |cols| == |xs| && cols != [] && cols[0] == c && c !in drop
    ensures c in Keep(cols, cols, drop)
    ensures IndexOf(Keep(cols, cols, drop), c) == 0 < |Keep(cols, xs, drop)|
    ensures Keep(cols, xs, drop)[0] == xs[IndexOf(cols, c)]
  {
    assert Keep(cols, cols, drop) == [c] + Keep(cols[1..], cols[1..], drop);
    assert Keep(cols, xs, drop) == [xs[0]] + Keep(cols[1..], xs[1..], drop);
  }

  lemma KeepFirstTail<T>(cols: seq<string>, xs: seq<T>, drop: seq<string>, c: string)
    requires |cols| == |xs| && cols != [] && cols[0] != c && c in cols[1..] && c !in drop
    requires c in Keep(cols[1..], cols[1..], drop)
    requires IndexOf(Keep(cols[1..], cols[1..], drop), c) < |Keep(cols[1..], xs[1..], drop)|
    requires Keep(cols[1..], xs[1..], drop)[IndexOf(Keep(cols[1..], cols[1..], drop), c)] == xs[1..][IndexOf(cols[1..], c)]
    ensures c in Keep(cols, cols, drop)
    ensures IndexOf(Keep(cols, cols, drop), c) < |Keep(cols, xs, drop)|
    ensures Keep(cols, xs, drop)[IndexOf(Keep(cols, cols, drop), c)] == xs[IndexOf(cols, c)]
  {
    var labels', kept' := Keep(cols[1..], cols[1..], drop), Keep(cols[1..], xs[1..], drop);
    var p' := IndexOf(labels', c);
    var q := IndexOf(cols, c);
    assert q == 1 + IndexOf(cols[1..], c);
    assert kept'[p'] == xs[q];
    if cols[0] in drop {
      KeepSkip(cols, xs, drop);
    } else {
      KeepTake(cols, xs, drop);
      IndexOfCons(cols[0], labels', c);
      assert ([xs[0]] + kept')[1 + p'] == kept'[p'];
    }
  }

  lemma KeepSkip<T>(cols: seq<string>, xs: seq<T>, drop: seq<string>)
    requires |cols| == |xs| && cols != [] && cols[0] in drop
    ensures Keep(cols, cols, drop) == Keep(cols[1..], cols[1..], drop)
    ensures Keep(cols, xs, drop) == Keep(cols[1..], xs[1..], drop)
  {
  }

  lemma KeepTake<T>(cols: seq<string>, xs: seq<T>, drop: seq<string>)
    requires |cols| == |xs| && cols != [] && cols[0] !in drop
    ensures Keep(cols, cols, drop) == [cols[0]] + Keep(cols[1..], cols[1..], drop)
    ensures Keep(cols, xs, drop) == [xs[0]] + Keep(cols[1..], xs[1..], drop)
  {
  }

  lemma {:induction false} KeepIgnoresAbsent<T>(cols: seq<string>, xs: seq<T>, drop: seq<string>, x: string)
    requires |cols| == |xs| && x !in cols
    ensures Keep(cols, xs, drop + [x]) == Keep(cols, xs, drop)
  {
    if cols != [] {
      KeepIgnoresAbsent(cols[1..], xs[1..], drop, x);
    }
  }

  lemma DistinctTail(cols: seq<string>)
    requires Distinct(cols) && cols != []
    ensures Distinct(cols[1..]) && cols[0] !in cols[1..]
  {
    var rest := cols[1..];
    forall i, j | 0 <= i < j < |rest| ensures rest[i] != rest[j] { assert cols[i + 1] != cols[j + 1]; }
    forall j | 0 <= j < |rest| ensures rest[j] != cols[0] { assert cols[0] != cols[j + 1]; }
  }

  /** `s` with the element at `p` removed. */
  function RemoveAt(s: seq<string>, p: nat): (r: seq<string>)
    requires p < |s|
    ensures |r| == |s| - 1
    ensures forall j :: 0 <= j < |r| ==> r[j] == s[if j < p then j else j + 1]
  {
    s[..p] + s[p + 1..]
  }

  lemma RemoveAtCons(a: string, s: seq<string>, p: nat)
    requires p < |s|
    ensures RemoveAt([a] + s, p + 1) == [a] + RemoveAt(s, p)
  {
    assert ([a] + s)[..p + 1] == [a] + s[..p];
    assert ([a] + s)[p + 2..] == s[p + 1..];
  }

  /** Removing `key` from the kept labels is keeping the labels without `key` too. */
  lemma {:induction false} KeepWithout(cols: seq<string>, drop: seq<string>, key: string)
    requires Distinct(cols) && key in cols && key !in drop
    ensures key in Keep(cols, cols, drop)
    ensures RemoveAt(Keep(cols, cols, drop), IndexOf(Keep(cols, cols, drop), key)) == Keep(cols, cols, drop + [key])
  {
    KeepFirst(cols, cols, drop, key);
    var rest := cols[1..];
    DistinctTail(cols);
    if cols[0] == key {
      KeepWithoutHead(cols, drop, key);
    } else {
      KeepWithout(rest, drop, key);
      KeepWithoutTail(cols, drop, key);
    }
  }

  lemma KeepWithoutHead(cols: seq<string>, drop: seq<string>, key: string)
    requires cols != [] && cols[0] == key && key !in cols[1..] && key !in drop
    ensures RemoveAt(Keep(cols, cols, drop), 0) == Keep(cols, cols, drop + [key])
  {
    var rest := cols[1..];
    var k, k' := Keep(cols, cols, drop), Keep(rest, rest, drop);
    assert k == [key] + k';
    assert Keep(cols, cols, drop + [key]) == Keep(rest, rest, drop + [key]);
    KeepIgnoresAbsent(rest, rest, drop, key);
    assert k[..0] + k[1..] == k';
  }

  lemma KeepWithoutTail(cols: seq<string>, drop: seq<string>, key: string)
    requires cols != [] && cols[0] != key && key in cols[1..] && key !in drop
    requires key in Keep(cols[1..], cols[1..], drop)
    requires RemoveAt(Keep(cols[1..], cols[1..], drop), IndexOf(Keep(cols[1..], cols[1..], drop), key))
      == Keep(cols[1..], cols[1..], drop + [key])
    ensures key in Keep(cols, cols, drop)
    ensures RemoveAt(Keep(cols, cols, drop), IndexOf(Keep(cols, cols, drop), key)) == Keep(cols, cols, drop + [key])
  {
    var rest := cols[1..];
    var k, k' := Keep(cols, cols, drop), Keep(rest, rest, drop);
    var without, without' := Keep(cols, cols, drop + [key]), Keep(rest, rest, drop + [key]);
    var p' := IndexOf(k', key);
    if cols[0] in drop {
      assert k == k' && without == without';
    } else {
      assert k == [cols[0]] + k' && without == [cols[0]] + without';
      IndexOfCons(cols[0], k', key);
      RemoveAtCons(cols[0], k', p');
    }
  }

  /** Lines 40-41: removes every column whose label is in `drop`. */
  function DropColumns(f: Frame, drop: seq<string>): (r: Frame)
    requires Rectangular(f)
    ensures Rectangular(r) && |r.rows| == |f.rows|
    ensures forall c :: c in r.columns <==> c in f.columns && c !in drop
  {
    KeepLabels(f.columns, drop);
    Frame(Keep(f.columns, f.columns, drop), seq(|f.rows|, i requires 0 <= i < |f.rows| => Keep(f.columns, f.rows[i], drop)))
  }

  // ---------------------------------------------------------------- grouping

  /** One row of the grouped frame: a country and its count per date column. */
  datatype WideRow = WideRow(country: string, counts: seq<int>)

  /** The grouped frame after `reset_index`: the country column first, then the
      date columns in their original order. */
  datatype Wide = Wide(dates: seq<string>, rows: seq<WideRow>)

  predicate Widths(rows: seq<WideRow>, w: nat)
  {
    forall i :: 0 <= i < |rows| ==> |rows[i].counts| == w
  }

  predicate WellShaped(t: Wide)
  {
    Widths(t.rows, |t.dates|)
  }

  function Countries(rows: seq<WideRow>): (cs: seq<string>)
    ensures |cs| == |rows| && forall i :: 0 <= i < |rows| ==> cs[i] == rows[i].country
  {
    seq(|rows|, i requires 0 <= i < |rows| => rows[i].country)
  }

  /** How a NaN enters a sum: as nothing (pandas' `sum` skips it). */
  function Count(c: Cell): int
  {
    if c.Num? then c.n else 0
  }

  function Zeros(w: nat): seq<int>
  {
    seq(w, _ => 0)
  }

  function AddCounts(a: seq<int>, b: seq<int>): seq<int>
    requires |a| == |b|
  {
    seq(|a|, j requires 0 <= j < |a| => a[j] + b[j])
  }

  /** The counts of country `k`, zeros when there is no such row. */
  function Lookup(rows: seq<WideRow>, k: string, w: nat): (v: seq<int>)
    requires Widths(rows, w)
    ensures |v| == w
  {
    if rows == [] then Zeros(w)
    else if rows[0].country == k then rows[0].counts
    else Lookup(rows[1..], k, w)
  }

  lemma {:induction false} LookupAbsent(rows: seq<WideRow>, k: string, w: nat)
    requires Widths(rows, w) && k !in Countries(rows)
    ensures Lookup(rows, k, w) == Zeros(w)
  {
    if rows != [] {
      assert rows[0].country == Countries(rows)[0];
      assert Countries(rows[1..]) == Countries(rows)[1..];
      LookupAbsent(rows[1..], k, w);
    }
  }

  /** In a table with distinct countries, looking up a row's country gives its counts. */
  lemma {:induction false} LookupAt(rows: seq<WideRow>, i: nat, w: nat)
    requires Widths(rows, w) && StrictlySorted(Countries(rows)) && i < |rows|
    ensures Lookup(rows, rows[i].country, w) == rows[i].counts
  {
    if i > 0 {
      StrictlySortedDistinct(Countries(rows), 0, i);
      assert Countries(rows[1..]) == Countries(rows)[1..];
      LookupAt(rows[1..], i - 1, w);
    }
  }

  /** Adds one source row's counts into the sorted group list: to the group
      of its name if there is one, else as a new group in its sorted place. */
  function Accumulate(acc: seq<WideRow>, c: string, v: seq<int>, w: nat): (r: seq<WideRow>)
    requires Widths(acc, w) && |v| == w
    ensures Widths(r, w)
  {
    if acc == [] then [WideRow(c, v)]
    else if acc[0].country == c then [WideRow(c, AddCounts(acc[0].counts, v))] + acc[1..]
    else if Less(c, acc[0].country) then [WideRow(c, v)] + acc
    else [acc[0]] + Accumulate(acc[1..], c, v, w)
  }

  /** The groups after accumulating are the sorted insertion of the new name. */
  lemma {:induction false} AccumulateCountries(acc: seq<WideRow>, c: string, v: seq<int>, w: nat)
    requires StrictlySorted(Countries(acc)) && Widths(acc, w) && |v| == w
    ensures Countries(Accumulate(acc, c, v, w)) == Insert(Countries(acc), c)
  {
    var r := Accumulate(acc, c, v, w);
    if acc == [] {
    } else if acc[0].country == c {
      assert Countries(r) == Countries(acc);
    } else if Less(c, acc[0].country) {
      assert Countries(r) == [c] + Countries(acc);
    } else {
      var cs := Countries(acc);
      assert Countries(acc[1..]) == cs[1..];
      assert StrictlySorted(cs[1..]) by {
        forall i, j | 0 <= i < j < |cs[1..]| ensures Less(cs[1..][i], cs[1..][j]) {
          assert cs[1..][i] == cs[i + 1] && cs[1..][j] == cs[j + 1];
        }
      }
      AccumulateCountries(acc[1..], c, v, w);
      var rest := Accumulate(acc[1..], c, v, w);
      assert r == [acc[0]] + rest;
      assert Countries(r) == [acc[0].country] + Countries(rest);
      LessTotal(c, cs[0]);
      assert Insert(cs, c) == [cs[0]] + Insert(cs[1..], c);
    }
  }

  lemma SortedHeadLeast(acc: seq<WideRow>, c: string)
    requires StrictlySorted(Countries(acc)) && acc != [] && Less(c, acc[0].country)
    ensures c !in Countries(acc)
  {
    forall j | 0 <= j < |acc| ensures Countries(acc)[j] != c {
      if j > 0 { LessTransitive(c, acc[0].country, Countries(acc)[j]); }
      LessIrreflexive(c);
    }
  }

  /** Accumulating a row adds its counts to its own country and to no other. */
  lemma {:induction false} AccumulateLookup(acc: seq<WideRow>, c: string, v: seq<int>, w: nat, k: string)
    requires StrictlySorted(Countries(acc)) && Widths(acc, w) && |v| == w
    ensures Lookup(Accumulate(acc, c, v, w), k, w) == if k == c then AddCounts(Lookup(acc, k, w), v) else Lookup(acc, k, w)
  {
    var r := Accumulate(acc, c, v, w);
    if acc == [] {
      assert AddCounts(Zeros(w), v) == v;
    } else if acc[0].country == c {
      assert r[1..] == acc[1..];
    } else if Less(c, acc[0].country) {
      assert r[1..] == acc;
      if k == c {
        SortedHeadLeast(acc, c);
        LookupAbsent(acc, c, w);
        assert AddCounts(Zeros(w), v) == v;
      }
    } else {
      assert Countries(acc[1..]) == Countries(acc)[1..];
      assert r[1..] == Accumulate(acc[1..], c, v, w);
      AccumulateLookup(acc[1..], c, v, w, k);
    }
  }

  /** The key of a source row under the country column at `kp`; rows without
      a name are left out of the groups (pandas drops NaN keys). */
  function RowKey(row: seq<Cell>, kp: nat): Option<string>
    requires kp < |row|
  {
    if row[kp].Str? then Some(row[kp].s) else None
  }

  /** The date cells of a row: every cell but the country cell at `kp`. */
  function RowCounts(row: seq<Cell>, kp: nat): (v: seq<int>)
    requires kp < |row|
    ensures |v| == |row| - 1
  {
    seq(|row| - 1, j requires 0 <= j < |row| - 1 => Count(row[if j < kp then j else j + 1]))
  }

  /** The sum of date column `j` over the rows whose country is `k`. */
  function Total(rows: seq<seq<Cell>>, kp: nat, k: string, j: nat): int
    requires forall i :: 0 <= i < |rows| ==> kp < |rows[i]| && j < |rows[i]| - 1
  {
    if rows == [] then 0
    else
      var last := rows[|rows| - 1];
      Total(rows[..|rows| - 1], kp, k, j) + (if RowKey(last, kp) == Some(k) then RowCounts(last, kp)[j] else 0)
  }

  /** `groupby(...).sum()` over the rows: one group per distinct name, in
      sorted order (GroupRowsKeys, GroupRowsTotals say which and what). */
  function GroupRows(rows: seq<seq<Cell>>, kp: nat, w: nat): (acc: seq<WideRow>)
    requires forall i :: 0 <= i < |rows| ==> |rows[i]| == w + 1
    requires kp <= w
    ensures StrictlySorted(Countries(acc)) && Widths(acc, w)
  {
    if rows == [] then []
    else
      var acc := GroupRows(rows[..|rows| - 1], kp, w);
      var last := rows[|rows| - 1];
      match RowKey(last, kp)
      case None => acc
      case Some(c) =>
        AccumulateCountries(acc, c, RowCounts(last, kp), w);
        Accumulate(acc, c, RowCounts(last, kp), w)
  }

  /** The groups are exactly the names the rows carry. */
  lemma {:induction false} GroupRowsKeys(rows: seq<seq<Cell>>, kp: nat, w: nat, k: string)
    requires forall i :: 0 <= i < |rows| ==> |rows[i]| == w + 1
    requires kp <= w
    ensures k in Countries(GroupRows(rows, kp, w)) <==> exists i :: 0 <= i < |rows| && RowKey(rows[i], kp) == Some(k)
  {
    if rows != [] {
      var n := |rows| - 1;
      var init := rows[..n];
      GroupRowsKeys(init, kp, w, k);
      var acc := GroupRows(init, kp, w);
      if RowKey(rows[n], kp).Some? {
        AccumulateCountries(acc, RowKey(rows[n], kp).value, RowCounts(rows[n], kp), w);
      }
      assert forall i :: 0 <= i < n ==> init[i] == rows[i];
      if exists i :: 0 <= i < |rows| && RowKey(rows[i], kp) == Some(k) {
        var i :| 0 <= i < |rows| && RowKey(rows[i], kp) == Some(k);
        if i < n { assert RowKey(init[i], kp) == Some(k); }
      }
    }
  }

  /** Each group's count for a date column is that column's total over its rows. */
  lemma {:induction false} GroupRowsTotals(rows: seq<seq<Cell>>, kp: nat, w: nat, k: string, j: nat)
    requires forall i :: 0 <= i < |rows| ==> |rows[i]| == w + 1
    requires kp <= w && j < w
    ensures Lookup(GroupRows(rows, kp, w), k, w)[j] == Total(rows, kp, k, j)
  {
    if rows != [] {
      var n := |rows| - 1;
      var init := rows[..n];
      GroupRowsTotals(init, kp, w, k, j);
      var acc := GroupRows(init, kp, w);
      var last := rows[n];
      match RowKey(last, kp)
      case None =>
      case Some(c) => AccumulateLookup(acc, c, RowCounts(last, kp), w, k);
    }
  }

  /** Line 43: group by the country column and sum; KeyError without one. */
  function GroupBySum(f: Frame): (r: Result<Wide>)
    requires Rectangular(f)
    ensures r.Err? <==> CountryColumn !in f.columns
    ensures r.Err? ==> r.error == KeyError(CountryColumn)
    ensures r.Ok? ==> WellShaped(r.value) && StrictlySorted(Countries(r.value.rows)) && |r.value.dates| == |f.columns| - 1
  {
    if CountryColumn !in f.columns then Err(KeyError(CountryColumn))
    else
      var kp := IndexOf(f.columns, CountryColumn);
      Ok(Wide(RemoveAt(f.columns, kp), GroupRows(f.rows, kp, |f.columns| - 1)))
  }

  /** The total of one date column over the source rows naming `k` in the
      country column, computed on the frame as loaded. */
  function ColumnTotal(rows: seq<seq<Cell>>, kc: nat, dc: nat, k: string): int
    requires forall i :: 0 <= i < |rows| ==> kc < |rows[i]| && dc < |rows[i]|
  {
    if rows == [] then 0
    else
      var last := rows[|rows| - 1];
      ColumnTotal(rows[..|rows| - 1], kc, dc, k) + (if last[kc] == Str(k) then Count(last[dc]) else 0)
  }

  function SourceTotal(raw: Frame, k: string, date: string): int
    requires Rectangular(raw) && CountryColumn in raw.columns && date in raw.columns
  {
    ColumnTotal(raw.rows, IndexOf(raw.columns, CountryColumn), IndexOf(raw.columns, date), k)
  }

  /** A group total is the column total of the date column it came from. */
  lemma {:induction false} TotalIsColumnTotal(rows: seq<seq<Cell>>, kp: nat, j: nat, k: string)
    requires forall i :: 0 <= i < |rows| ==> kp < |rows[i]| && j < |rows[i]| - 1
    ensures Total(rows, kp, k, j) == ColumnTotal(rows, kp, if j < kp then j else j + 1, k)
  {
    if rows != [] {
      TotalIsColumnTotal(rows[..|rows| - 1], kp, j, k);
    }
  }

  /** Column totals agree over rows that agree on the two columns. */
  lemma {:induction false} ColumnTotalsAgree(xs: seq<seq<Cell>>, ys: seq<seq<Cell>>, kx: nat, dx: nat, ky: nat, dy: nat, k: string)
    requires |xs| == |ys|
    requires forall i :: 0 <= i < |xs| ==> kx < |xs[i]| && dx < |xs[i]|
    requires forall i :: 0 <= i < |ys| ==> ky < |ys[i]| && dy < |ys[i]|
    requires forall i :: 0 <= i < |xs| ==> xs[i][kx] == ys[i][ky] && xs[i][dx] == ys[i][dy]
    ensures ColumnTotal(xs, kx, dx, k) == ColumnTotal(ys, ky, dy, k)
  {
    if xs != [] {
      var n := |xs| - 1;
      ColumnTotalsAgree(xs[..n], ys[..n], kx, dx, ky, dy, k);
    }
  }

  /** Dropping the metadata columns keeps every other column and its cells. */
  lemma DroppedCells(raw: Frame, name: string)
    requires Rectangular(raw) && Distinct(raw.columns) && name in raw.columns && name !in DroppedColumns
    ensures var d := DropColumns(raw, DroppedColumns);
      && name in d.columns && Distinct(d.columns)
      && forall i :: 0 <= i < |raw.rows| ==> d.rows[i][IndexOf(d.columns, name)] == raw.rows[i][IndexOf(raw.columns, name)]
  {
    var d := DropColumns(raw, DroppedColumns);
    KeepDistinct(raw.columns, DroppedColumns);
    forall i | 0 <= i < |raw.rows| ensures d.rows[i][IndexOf(d.columns, name)] == raw.rows[i][IndexOf(raw.columns, name)] {
      KeepFirst(raw.columns, raw.rows[i], DroppedColumns, name);
    }
  }

  /** One cell of a grouped frame: the total of the date column it came from. */
  lemma GroupCell(f: Frame, i: nat, j: nat)
    requires Rectangular(f) && CountryColumn in f.columns
    requires i < |GroupBySum(f).value.rows| && j < |GroupBySum(f).value.dates|
    ensures var t, kp := GroupBySum(f).value, IndexOf(f.columns, CountryColumn);
      var j' := if j < kp then j else j + 1;
      && j' < |f.columns| && t.dates[j] == f.columns[j']
      && t.rows[i].counts[j] == ColumnTotal(f.rows, kp, j', t.rows[i].country)
  {
    var kp := IndexOf(f.columns, CountryColumn);
    var w := |f.columns| - 1;
    var t := GroupBySum(f).value;
    assert t == Wide(RemoveAt(f.columns, kp), GroupRows(f.rows, kp, w));
    var k := t.rows[i].country;
    GroupRowsTotals(f.rows, kp, w, k, j);
    LookupAt(t.rows, i, w);
    TotalIsColumnTotal(f.rows, kp, j, k);
  }

  /** The grouped date columns are the loaded ones minus metadata and country. */
  lemma GroupedDates(raw: Frame)
    requires Rectangular(raw) && Distinct(raw.columns) && CountryColumn in raw.columns
    ensures GroupBySum(DropColumns(raw, DroppedColumns)).Ok?
    ensures GroupBySum(DropColumns(raw, DroppedColumns)).value.dates == Keep(raw.columns, raw.columns, DroppedColumns + [CountryColumn])
  {
    assert CountryColumn !in DroppedColumns;
    DroppedCells(raw, CountryColumn);
    KeepWithout(raw.columns, DroppedColumns, CountryColumn);
  }

  /** The groups of a frame are exactly the names under its country column. */
  lemma GroupKeys(f: Frame, k: string)
    requires Rectangular(f) && CountryColumn in f.columns
    ensures var kp := IndexOf(f.columns, CountryColumn);
      k in Countries(GroupBySum(f).value.rows) <==> exists i :: 0 <= i < |f.rows| && f.rows[i][kp] == Str(k)
  {
    var kp := IndexOf(f.columns, CountryColumn);
    var w := |f.columns| - 1;
    assert GroupBySum(f).value.rows == GroupRows(f.rows, kp, w);
    GroupRowsKeys(f.rows, kp, w, k);
    assert forall i :: 0 <= i < |f.rows| ==> (RowKey(f.rows[i], kp) == Some(k) <==> f.rows[i][kp] == Str(k));
  }

  /** A name is a group exactly when some loaded row carries it. */
  lemma GroupedKeys(raw: Frame, k: string)
    requires Rectangular(raw) && Distinct(raw.columns) && CountryColumn in raw.columns
    ensures GroupBySum(DropColumns(raw, DroppedColumns)).Ok?
    ensures var t := GroupBySum(DropColumns(raw, DroppedColumns)).value;
      var kc := IndexOf(raw.columns, CountryColumn);
      k in Countries(t.rows) <==> exists i :: 0 <= i < |raw.rows| && raw.rows[i][kc] == Str(k)
  {
    var d := DropColumns(raw, DroppedColumns);
    assert CountryColumn !in DroppedColumns;
    DroppedCells(raw, CountryColumn);
    GroupKeys(d, k);
    var kc := IndexOf(raw.columns, CountryColumn);
    var kp := IndexOf(d.columns, CountryColumn);
    assert forall i :: 0 <= i < |raw.rows| ==> d.rows[i][kp] == raw.rows[i][kc];
  }

  /** One grouped cell is the sum of its date over the loaded rows of its name. */
  lemma GroupedCell(raw: Frame, i: nat, j: nat)
    requires Rectangular(raw) && Distinct(raw.columns) && CountryColumn in raw.columns
    requires GroupBySum(DropColumns(raw, DroppedColumns)).Ok?
    requires var t := GroupBySum(DropColumns(raw, DroppedColumns)).value; i < |t.rows| && j < |t.dates|
    ensures var t := GroupBySum(DropColumns(raw, DroppedColumns)).value;
      t.dates[j] in raw.columns && t.rows[i].counts[j] == SourceTotal(raw, t.rows[i].country, t.dates[j])
  {
    var d := DropColumns(raw, DroppedColumns);
    assert CountryColumn !in DroppedColumns;
    DroppedCells(raw, CountryColumn);
    var t := GroupBySum(d).value;
    GroupCell(d, i, j);
    var kp := IndexOf(d.columns, CountryColumn);
    var j' := if j < kp then j else j + 1;
    var name := d.columns[j'];
    DroppedCells(raw, name);
    IndexOfDistinct(d.columns, j');
    ColumnTotalsAgree(d.rows, raw.rows, kp, j', IndexOf(raw.columns, CountryColumn), IndexOf(raw.columns, name), t.rows[i].country);
  }

  /** Aggregation: after dropping the metadata columns and grouping, the date
      columns are the loaded ones other than the metadata and country columns,
      in their order; the groups are the distinct loaded names in sorted order;
      and each group's count for a date is the sum of that date over all loaded
      rows with that name. */
  lemma GroupedSums(raw: Frame)
    requires Rectangular(raw) && Distinct(raw.columns) && CountryColumn in raw.columns
    ensures GroupBySum(DropColumns(raw, DroppedColumns)).Ok?
    ensures var t := GroupBySum(DropColumns(raw, DroppedColumns)).value;
      var kc := IndexOf(raw.columns, CountryColumn);
      && t.dates == Keep(raw.columns, raw.columns, DroppedColumns + [CountryColumn])
      && StrictlySorted(Countries(t.rows))
      && (forall k :: k in Countries(t.rows) <==> exists i :: 0 <= i < |raw.rows| && raw.rows[i][kc] == Str(k))
      && (forall i, j :: 0 <= i < |t.rows| && 0 <= j < |t.dates| ==>
            t.dates[j] in raw.columns && t.rows[i].counts[j] == SourceTotal(raw, t.rows[i].country, t.dates[j]))
  {
    GroupedDates(raw);
    var t := GroupBySum(DropColumns(raw, DroppedColumns)).value;
    forall k ensures k in Countries(t.rows) <==> exists i :: 0 <= i < |raw.rows| && raw.rows[i][IndexOf(raw.columns, CountryColumn)] == Str(k) {
      GroupedKeys(raw, k);
    }
    forall i, j | 0 <= i < |t.rows| && 0 <= j < |t.dates|
      ensures t.dates[j] in raw.columns && t.rows[i].counts[j] == SourceTotal(raw, t.rows[i].country, t.dates[j])
    {
      GroupedCell(raw, i, j);
    }
  }

  // ---------------------------------------------------------------- converting

  /** Line 44: every group's name replaced by what the converter maps it to. */
  function ConvertCountries(t: Wide, convert: string -> string): (r: Wide)
    ensures r.dates == t.dates && |r.rows| == |t.rows|
    ensures forall i :: 0 <= i < |t.rows| ==> r.rows[i] == WideRow(convert(t.rows[i].country), t.rows[i].counts)
  {
    Wide(t.dates, seq(|t.rows|, i requires 0 <= i < |t.rows| => t.rows[i].(country := convert(t.rows[i].country))))
  }

  // ---------------------------------------------------------------- melting

  /** One row of the tidy table: `Country/Region`, `variable`, `value`. */
  datatype TidyRow = TidyRow(country: string, variable: string, value: int)

  /** The rows melt stacks for date column `j`: every country in turn. */
  function DateBlock(t: Wide, j: nat): (b: seq<TidyRow>)
    requires WellShaped(t) && j < |t.dates|
  {
    seq(|t.rows|, i requires 0 <= i < |t.rows| => TidyRow(t.rows[i].country, t.dates[j], t.rows[i].counts[j]))
  }

  /** The blocks of the first `k` date columns, one after another. */
  function MeltUpTo(t: Wide, k: nat): seq<TidyRow>
    requires WellShaped(t) && k <= |t.dates|
  {
    if k == 0 then [] else MeltUpTo(t, k - 1) + DateBlock(t, k - 1)
  }

  /** Lines 52-54: `pd.melt` with the country as identifier and every date
      column as a value column, stacked one column after another. */
  function Melt(t: Wide): (m: seq<TidyRow>)
    requires WellShaped(t)
    ensures |m| == |t.dates| * |t.rows|
  {
    MeltUpToLength(t, |t.dates|);
    MeltUpTo(t, |t.dates|)
  }

  lemma MulSucc(a: int, n: int)
    ensures (a + 1) * n == a * n + n
  {
  }

  lemma {:induction false} MeltUpToLength(t: Wide, k: nat)
    requires WellShaped(t) && k <= |t.dates|
    ensures |MeltUpTo(t, k)| == k * |t.rows|
  {
    if k > 0 {
      MeltUpToLength(t, k - 1);
      MulSucc(k - 1, |t.rows|);
    }
  }

  lemma MulMono(j: nat, k: nat, n: nat)
    requires j < k
    ensures j * n + n <= k * n
  {
    MulSucc(j, n);
    assert (j + 1) * n <= k * n;
  }

  lemma {:induction false} MeltUpToAt(t: Wide, k: nat, j: nat, i: nat)
    requires WellShaped(t) && j < k <= |t.dates| && i < |t.rows|
    ensures j * |t.rows| + i < |MeltUpTo(t, k)|
    ensures MeltUpTo(t, k)[j * |t.rows| + i] == TidyRow(t.rows[i].country, t.dates[j], t.rows[i].counts[j])
  {
    var n := |t.rows|;
    var front, block := MeltUpTo(t, k - 1), DateBlock(t, k - 1);
    assert MeltUpTo(t, k) == front + block;
    MeltUpToLength(t, k - 1);
    MulMono(j, k, n);
    if j < k - 1 {
      MeltUpToAt(t, k - 1, j, i);
      assert (front + block)[j * n + i] == front[j * n + i];
    } else {
      assert (front + block)[j * n + i] == block[i];
    }
  }

  lemma DivModSplit(k: nat, n: nat, m: nat)
    requires k < m * n
    ensures 0 < n && k == (k / n) * n + k % n && k % n < n && k / n < m
  {
  }

  /** Row `d * n + c` of a date-major tidy table with `n` countries exists and is `row`. */
  predicate PairRow(tidy: seq<TidyRow>, n: nat, d: nat, c: nat, row: TidyRow)
  {
    0 <= d * n + c < |tidy| && tidy[d * n + c] == row
  }

  /** The tidy row for date column `j` and country `i` sits at `j * n + i`. */
  lemma MeltAt(t: Wide, j: nat, i: nat)
    requires WellShaped(t) && j < |t.dates| && i < |t.rows|
    ensures 0 <= j * |t.rows| + i < |Melt(t)|
    ensures Melt(t)[j * |t.rows| + i] == TidyRow(t.rows[i].country, t.dates[j], t.rows[i].counts[j])
  {
    MeltUpToAt(t, |t.dates|, j, i);
  }

  /** The tidy table lists every (date column, country) pair, date-major. */
  lemma MeltPairs(t: Wide)
    requires WellShaped(t)
    ensures |Melt(t)| == |t.dates| * |t.rows|
    ensures forall j, i :: 0 <= j < |t.dates| && 0 <= i < |t.rows| ==>
      j * |t.rows| + i < |Melt(t)| &&
      Melt(t)[j * |t.rows| + i] == TidyRow(t.rows[i].country, t.dates[j], t.rows[i].counts[j])
  {
    forall j, i | 0 <= j < |t.dates| && 0 <= i < |t.rows|
      ensures j * |t.rows| + i < |Melt(t)| && Melt(t)[j * |t.rows| + i] == TidyRow(t.rows[i].country, t.dates[j], t.rows[i].counts[j])
    {
      MeltAt(t, j, i);
    }
  }

  /** The tidy table has one row per (country, date column) pair, date-major:
      row `k` holds country `k % n` and date column `k / n`. */
  lemma MeltShape(t: Wide)
    requires WellShaped(t)
    ensures |Melt(t)| == |t.dates| * |t.rows|
    ensures forall k :: 0 <= k < |Melt(t)| ==>
      |t.rows| > 0 && k % |t.rows| < |t.rows| && k / |t.rows| < |t.dates| &&
      Melt(t)[k] == TidyRow(t.rows[k % |t.rows|].country, t.dates[k / |t.rows|], t.rows[k % |t.rows|].counts[k / |t.rows|])
  {
    var n, m := |t.rows|, Melt(t);
    MeltUpToLength(t, |t.dates|);
    forall k | 0 <= k < |m|
      ensures n > 0 && k % n < n && k / n < |t.dates| &&
        m[k] == TidyRow(t.rows[k % n].country, t.dates[k / n], t.rows[k % n].counts[k / n])
    {
      DivModSplit(k, n, |t.dates|);
      MeltUpToAt(t, |t.dates|, k / n, k % n);
    }
  }

  // ---------------------------------------------------------------- transposing

  /** A frame indexed by date labels, one column per country. */
  datatype DateTable = DateTable(index: seq<string>, columns: seq<string>, body: seq<seq<Cell>>)

  predicate Tabular(t: DateTable)
  {
    |t.body| == |t.index| && forall i :: 0 <= i < |t.body| ==> |t.body[i]| == |t.columns|
  }

  /** `clean_df` as cells: the country name, then the counts. */
  function Grid(t: Wide): (g: seq<seq<Cell>>)
    requires WellShaped(t)
    ensures |g| == |t.rows|
    ensures forall c :: 0 <= c < |g| ==> |g[c]| == 1 + |t.dates| && g[c][0] == Str(t.rows[c].country)
    ensures forall c, d :: 0 <= c < |g| && 0 <= d < |t.dates| ==> g[c][d + 1] == Num(t.rows[c].counts[d])
  {
    seq(|t.rows|, i requires 0 <= i < |t.rows| =>
      [Str(t.rows[i].country)] + seq(|t.dates|, j requires 0 <= j < |t.dates| => Num(t.rows[i].counts[j])))
  }

  /** `DataFrame.transpose`: row `a` of the result is column `a` of `g`. */
  function Transpose(g: seq<seq<Cell>>, width: nat): (tr: seq<seq<Cell>>)
    requires forall i :: 0 <= i < |g| ==> |g[i]| == width
    ensures |tr| == width
    ensures forall a :: 0 <= a < width ==> |tr[a]| == |g|
    ensures forall a, b :: 0 <= a < width && 0 <= b < |g| ==> tr[a][b] == g[b][a]
  {
    seq(width, a requires 0 <= a < width => seq(|g|, b requires 0 <= b < |g| => g[b][a]))
  }

  function HeaderName(c: Cell): string
  {
    if c.Str? then c.s else ""
  }

  /** Lines 46-50: transpose, take the first row (the names) as the header and
      keep the rest as the body, indexed by the date columns. */
  function DateIndexed(t: Wide): (dt: DateTable)
    requires WellShaped(t)
    ensures Tabular(dt) && dt.index == t.dates && |dt.columns| == |t.rows|
  {
    var tr := Transpose(Grid(t), 1 + |t.dates|);
    DateTable(t.dates, seq(|t.rows|, c requires 0 <= c < |t.rows| => HeaderName(tr[0][c])), tr[1..])
  }

  /** The transposed table: the date columns as index, the names as columns,
      and only counts in the body (the header row has been taken out). */
  lemma DateIndexedCells(t: Wide)
    requires WellShaped(t)
    ensures var dt := DateIndexed(t);
      && Tabular(dt)
      && dt.index == t.dates && dt.columns == Countries(t.rows)
      && forall d, c :: 0 <= d < |dt.index| && 0 <= c < |t.rows| ==> dt.body[d][c] == Num(t.rows[c].counts[d])
  {
    var g := Grid(t);
    var tr := Transpose(g, 1 + |t.dates|);
    var dt := DateIndexed(t);
    assert dt.body == tr[1..];
    forall d, c | 0 <= d < |t.dates| && 0 <= c < |t.rows| ensures dt.body[d][c] == Num(t.rows[c].counts[d]) {
      assert dt.body[d] == tr[d + 1];
      assert tr[d + 1][c] == g[c][d + 1];
    }
    forall c | 0 <= c < |t.rows| ensures dt.columns[c] == t.rows[c].country {
      assert tr[0][c] == g[c][0];
    }
  }

  /** The date-indexed table is the tidy table re-oriented: one row per date
      column in order, one column per country in order, and the cell for date
      `d` and country `c` holds the value of tidy row `d * n + c`, which is the
      row for that same pair. */
  lemma DateIndexedIsTransposedMelt(t: Wide)
    requires WellShaped(t)
    ensures var dt, m, n := DateIndexed(t), Melt(t), |t.rows|;
      && Tabular(dt)
      && dt.index == t.dates && dt.columns == Countries(t.rows)
      && |m| == |dt.index| * n
      && forall d, c :: 0 <= d < |dt.index| && 0 <= c < n ==>
           && dt.body[d][c] == Num(t.rows[c].counts[d])
           && PairRow(m, n, d, c, TidyRow(dt.columns[c], dt.index[d], t.rows[c].counts[d]))
  {
    DateIndexedCells(t);
    forall d, c | 0 <= d < |t.dates| && 0 <= c < |t.rows|
      ensures PairRow(Melt(t), |t.rows|, d, c, TidyRow(t.rows[c].country, t.dates[d], t.rows[c].counts[d]))
    {
      MeltAt(t, d, c);
    }
  }

  // ---------------------------------------------------------------- the pipeline

  /** Lines 44-54: the groups renamed, then melted and transposed. */
  function Tables(g: Wide, convert: string -> string): (r: (seq<TidyRow>, DateTable))
    requires WellShaped(g)
    ensures Tabular(r.1) && r.1.index == g.dates && |r.1.columns| == |g.rows|
    ensures |r.0| == |g.dates| * |g.rows|
  {
    var named := ConvertCountries(g, convert);
    (Melt(named), DateIndexed(named))
  }

  /** The two tables built from the groups, cell by cell: the renamed group
      `c` and date column `d` meet in tidy row `d * n + c` and in body cell
      `[d][c]`, both holding that group's count for that date. */
  lemma TablesCell(g: Wide, convert: string -> string, d: nat, c: nat)
    requires WellShaped(g) && d < |g.dates| && c < |g.rows|
    ensures var tidy, dt := Tables(g, convert).0, Tables(g, convert).1;
      && PairRow(tidy, |g.rows|, d, c, TidyRow(convert(g.rows[c].country), g.dates[d], g.rows[c].counts[d]))
      && c < |dt.columns| && dt.columns[c] == convert(g.rows[c].country)
      && d < |dt.body| && c < |dt.body[d]| && dt.body[d][c] == Num(g.rows[c].counts[d])
  {
    var named := ConvertCountries(g, convert);
    MeltAt(named, d, c);
    DateIndexedCells(named);
    assert named.rows[c] == WideRow(convert(g.rows[c].country), g.rows[c].counts);
  }

  /** `clean_data_frame`: the tidy table and the date-indexed table of one
      series file; KeyError when it has no country column. */
  function CleanDataFrame(raw: Frame, convert: string -> string): (r: Result<(seq<TidyRow>, DateTable)>)
    requires Rectangular(raw) && SeriesShaped(raw)
    ensures r.Err? <==> CountryColumn !in raw.columns
  {
    assert CountryColumn !in DroppedColumns;
    match GroupBySum(DropColumns(raw, DroppedColumns))
    case Err(e) => Err(e)
    case Ok(grouped) => Ok(Tables(grouped, convert))
  }

  /** What `clean_data_frame` returns, in terms of the loaded frame: with `K`
      the sorted distinct loaded names and `D` the date columns, the tidy table
      has |K| * |D| rows, date-major, the date-indexed table has the rows `D`
      and the columns `convert(K)`, and both hold for date `D[d]` and name
      `K[c]` the sum of that date over the loaded rows naming `K[c]`. Neither
      holds a metadata column. */
  lemma CleanDataFrameSpec(raw: Frame, convert: string -> string)
    requires Rectangular(raw) && SeriesShaped(raw) && Distinct(raw.columns) && CountryColumn in raw.columns
    ensures CleanDataFrame(raw, convert).Ok?
    ensures var tidy, dt := CleanDataFrame(raw, convert).value.0, CleanDataFrame(raw, convert).value.1;
      var grouped := GroupBySum(DropColumns(raw, DroppedColumns)).value;
      var keys, n := Countries(grouped.rows), |grouped.rows|;
      && Tabular(dt)
      && dt.index == Keep(raw.columns, raw.columns, DroppedColumns + [CountryColumn])
      && (forall x :: x in dt.index ==> x !in DroppedColumns && x != CountryColumn)
      && StrictlySorted(keys) && |dt.columns| == n
      && |tidy| == |dt.index| * n
      && forall d, c :: 0 <= d < |dt.index| && 0 <= c < n ==>
           && dt.index[d] in raw.columns
           && dt.columns[c] == convert(keys[c])
           && dt.body[d][c] == Num(SourceTotal(raw, keys[c], dt.index[d]))
           && PairRow(tidy, n, d, c, TidyRow(convert(keys[c]), dt.index[d], SourceTotal(raw, keys[c], dt.index[d])))
  {
    GroupedDates(raw);
    var g := GroupBySum(DropColumns(raw, DroppedColumns)).value;
    assert CleanDataFrame(raw, convert) == Ok(Tables(g, convert));
    var tidy, dt := Tables(g, convert).0, Tables(g, convert).1;
    KeepLabels(raw.columns, DroppedColumns + [CountryColumn]);
    var keys, n := Countries(g.rows), |g.rows|;
    forall d, c | 0 <= d < |dt.index| && 0 <= c < n
      ensures && dt.index[d] in raw.columns
              && dt.columns[c] == convert(keys[c])
              && dt.body[d][c] == Num(SourceTotal(raw, keys[c], dt.index[d]))
              && PairRow(tidy, n, d, c, TidyRow(convert(keys[c]), dt.index[d], SourceTotal(raw, keys[c], dt.index[d])))
    {
      GroupedCell(raw, c, d);
      TablesCell(g, convert, d, c);
    }
  }
}
