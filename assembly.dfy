/**
 * The late stages of `run_gpu_workflow`: `final_performance_delinquency` attaches the
 * per-loan-month features to every performance row, `join_perf_acq_gdfs` attaches the
 * loan's acquisition record, and the typed per-loan-month table built by the earlier
 * stages is laid out as the frame those stages receive.
 */
module Assembly {
  import opened Wrappers
  import opened Relational
  import opened Frames
  import opened Features
  import opened Windows
  import Dates

  const LoanIdName: string := "loan_id"
  const PeriodName: string := "monthly_reporting_period"
  const YearName: string := "timestamp_year"
  const MonthName: string := "timestamp_month"

  /** The key of the re-join of the per-loan-month features onto the performance rows. */
  const MonthKeys: seq<string> := [LoanIdName, YearName, MonthName]

  /** The two helper columns dropped again after that re-join. */
  const Helpers: set<string> := {YearName, MonthName}

  /** The helper columns are the last two key names; `loan_id`, the first, is not one of them. */
  lemma HelperNames()
    ensures MonthKeys[0] == LoanIdName && LoanIdName !in Helpers
    ensures forall n :: n in Helpers ==> n in MonthKeys
    ensures LoanIdName != YearName && LoanIdName != MonthName && YearName != MonthName
  {
  }

  // ---------------------------------------------------------------- the typed stages in sequence

  /** `joined_df` as `combine_joined_12_mon` returns it, built from the performance rows by the earlier stages. */
  function CombinedTable(rows: seq<PerfRow>): seq<CombinedRow> {
    var joined := JoinedTable(rows);
    CombineJoined12Mon(joined, WindowTable(joined))
  }

  /** Every per-loan-month row carries a calendar month, so the re-join with the window table applies to all of them. */
  lemma JoinedMonths(rows: seq<PerfRow>)
    ensures var joined := JoinedTable(rows);
      |joined| == |rows| && forall i :: 0 <= i < |joined| ==> 1 <= joined[i].month <= Months
  {
    JoinedTableRows(rows);
    forall i | 0 <= i < |rows| ensures 1 <= JoinedTable(rows)[i].month <= Months {
      JoinedRowMeaning(rows, i);
    }
  }

  /**
   * From the performance rows to `combine_joined_12_mon`: one row per performance row,
   * in order, each carrying its loan's features and the label and least balance of the
   * twelve months of its loan starting at its own month.
   */
  lemma CombinedTableMeaning(rows: seq<PerfRow>)
    ensures var c, joined := CombinedTable(rows), JoinedTable(rows);
      && |c| == |rows| == |joined|
      && forall i :: 0 <= i < |rows| ==> CarriesWindow(joined, joined[i], c[i])
  {
    JoinedMonths(rows);
    CombineOneToOne(JoinedTable(rows));
  }

  // ---------------------------------------------------------------- final_performance_delinquency

  /** `.dt.month` of one cell; a null date gives a null month. */
  function MonthCell(c: Cell): Cell {
    if c.DateV? then IntV(c.d.month) else Null
  }

  /** `.dt.year` of one cell; a null date gives a null year. */
  function YearCell(c: Cell): Cell {
    if c.DateV? then IntV(c.d.year) else Null
  }

  /** `merged['monthly_reporting_period'].dt.month.astype('int8')`, stored as `timestamp_month`. */
  function MonthColumn(p: Column): (r: Column)
    ensures r.name == MonthName && r.dtype == Int8 && |r.cells| == |p.cells|
  {
    Column(MonthName, Int8, seq(|p.cells|, i requires 0 <= i < |p.cells| => MonthCell(p.cells[i])))
  }

  /** `merged['monthly_reporting_period'].dt.year.astype('int16')`, stored as `timestamp_year`. */
  function YearColumn(p: Column): (r: Column)
    ensures r.name == YearName && r.dtype == Int16 && |r.cells| == |p.cells|
  {
    Column(YearName, Int16, seq(|p.cells|, i requires 0 <= i < |p.cells| => YearCell(p.cells[i])))
  }

  /** The table has a reporting-period column of date type, so `.dt` applies to it. */
  predicate HasPeriod(cols: seq<Column>) {
    PeriodName in Names(cols) && ColumnNamed(cols, PeriodName).dtype == DateTime
  }

  /** The performance table after `timestamp_month` and `timestamp_year` have been assigned from its reporting period. */
  function WithTimestamps(g: seq<Column>): (t: seq<Column>)
    requires HasPeriod(g)
    ensures forall n :: n in Names(t) <==> n in Names(g) || n in Helpers
  {
    var p := ColumnNamed(g, PeriodName);
    Assign(Assign(g, MonthColumn(p)), YearColumn(p))
  }

  /**
   * `final_performance_delinquency(gdf, joined_df)`: both tables through
   * `null_workaround`, the helper key columns added to the performance table, a left
   * merge on `(loan_id, timestamp_year, timestamp_month)`, and the helper columns
   * dropped again. `None` where the library raises: no date-typed reporting period, or
   * a key column missing on either side.
   */
  function FinalPerformanceOf(gdf: seq<Column>, joined: seq<Column>): Option<seq<Column>> {
    var g, j := NullWorkaroundOf(gdf), NullWorkaroundOf(joined);
    if !HasPeriod(g) then None
    else
      var t := WithTimestamps(g);
      if LoanIdName in Names(t) && forall n :: n in MonthKeys ==> n in Names(j) then
        Some(Without(Merge(t, j, MonthKeys), Helpers))
      else None
  }

  /** `null_workaround` keeps the names, so a column is found at the same place, rewritten by the policy. */
  lemma ColumnNamedWorkaround(cols: seq<Column>, name: string)
    requires name in Names(cols)
    ensures Names(NullWorkaroundOf(cols)) == Names(cols)
    ensures name in Names(NullWorkaroundOf(cols))
    ensures ColumnNamed(NullWorkaroundOf(cols), name) == WorkaroundColumn(ColumnNamed(cols, name))
  {
    NullWorkaroundMeaning(cols);
  }

  /** `null_workaround` leaves a date column alone and turns every other one into a non-date column. */
  lemma HasPeriodWorkaround(cols: seq<Column>)
    ensures HasPeriod(NullWorkaroundOf(cols)) <==> HasPeriod(cols)
  {
    NullWorkaroundMeaning(cols);
    if PeriodName in Names(cols) {
      ColumnNamedWorkaround(cols, PeriodName);
    }
  }

  /**
   * `final_performance_delinquency` fails exactly when the performance table has no
   * date-typed reporting period or no `loan_id`, or the per-loan-month table lacks one
   * of the three key columns.
   */
  lemma FinalPerformanceFails(gdf: seq<Column>, joined: seq<Column>)
    ensures FinalPerformanceOf(gdf, joined).None? <==>
      !HasPeriod(gdf) || LoanIdName !in Names(gdf) || exists n :: n in MonthKeys && n !in Names(joined)
  {
    HasPeriodWorkaround(gdf);
    NullWorkaroundMeaning(gdf);
    NullWorkaroundMeaning(joined);
  }

  /** After the helper columns are assigned, the key of row `i` is its loan id and its reporting period's year and month. */
  lemma TimestampKeys(g: seq<Column>, i: nat)
    requires Valid(g) && HasPeriod(g) && LoanIdName in Names(g)
    ensures var t, p := WithTimestamps(g), ColumnNamed(g, PeriodName);
      && Valid(t) && Height(t) == Height(g)
      && (forall n :: n in MonthKeys ==> n in Names(t))
      && KeyAt(t, MonthKeys, i) == [CellAt(ColumnNamed(g, LoanIdName), i), YearCell(CellAt(p, i)), MonthCell(CellAt(p, i))]
  {
    var p := ColumnNamed(g, PeriodName);
    var m := Assign(g, MonthColumn(p));
    AssignValid(g, MonthColumn(p));
    AssignValid(m, YearColumn(p));
    var t := Assign(m, YearColumn(p));
    HelperNames();
    AssignKeeps(g, MonthColumn(p), LoanIdName);
    AssignKeeps(m, YearColumn(p), LoanIdName);
    AssignKeeps(m, YearColumn(p), MonthName);
    KeyAtThree(t, MonthKeys, i);
    TimestampCells(p, i);
  }

  /** Cell `i` of the helper columns is the year and the month of cell `i` of the reporting period. */
  lemma TimestampCells(p: Column, i: nat)
    ensures CellAt(YearColumn(p), i) == YearCell(CellAt(p, i))
    ensures CellAt(MonthColumn(p), i) == MonthCell(CellAt(p, i))
  {
  }

  /**
   * With unique `(loan_id, timestamp_year, timestamp_month)` keys in the per-loan-month
   * table, `final_performance_delinquency` keeps every performance row once and in
   * order: its columns come out as `null_workaround` left them, without the helper
   * columns, followed by the per-loan-month columns other than the keys, each giving
   * row `i` the value of the per-loan-month row whose key is row `i`'s loan id, year and
   * month (see `TimestampKeys`), or null.
   */
  lemma FinalPerformanceRows(gdf: seq<Column>, joined: seq<Column>)
    requires Valid(gdf) && FinalPerformanceOf(gdf, joined).Some?
    requires Unique(KeysOf(NullWorkaroundOf(joined), MonthKeys))
    ensures var out, g, j := FinalPerformanceOf(gdf, joined).value, NullWorkaroundOf(gdf), NullWorkaroundOf(joined);
      var kept := Without(g, Helpers);
      && HasPeriod(g)
      && |kept| <= |out|
      && out[..|kept|] == kept
      && MergedTail(out[|kept|..], WithTimestamps(g), j, MonthKeys, Without(j, KeySet(MonthKeys)))
  {
    var g, j := NullWorkaroundOf(gdf), NullWorkaroundOf(joined);
    HasPeriodWorkaround(gdf);
    NullWorkaroundValid(gdf);
    var t := WithTimestamps(g);
    TimestampKeys(g, 0);
    var p := ColumnNamed(g, PeriodName);
    WithoutAssign(Assign(g, MonthColumn(p)), YearColumn(p), Helpers);
    WithoutAssign(g, MonthColumn(p), Helpers);
    MergeThenDrop(t, j, MonthKeys, Helpers);
  }

  /** The two tables of a merge share no column name other than the keys, so the library adds no suffixes. */
  predicate ClashOnly(a: seq<Column>, b: seq<Column>, keys: seq<string>) {
    forall n :: n in Names(a) && n in Names(b) ==> n in keys
  }

  /**
   * When the performance table and the per-loan-month table share only key names,
   * `final_performance_delinquency` returns a valid table of the performance table's
   * height, whose names are the performance names other than the helpers and the
   * per-loan-month names other than the keys.
   */
  lemma FinalPerformanceValid(gdf: seq<Column>, joined: seq<Column>)
    requires Valid(gdf) && Valid(joined) && FinalPerformanceOf(gdf, joined).Some?
    requires Unique(KeysOf(NullWorkaroundOf(joined), MonthKeys))
    requires ClashOnly(gdf, joined, MonthKeys)
    ensures var out := FinalPerformanceOf(gdf, joined).value;
      && Valid(out) && Height(out) == Height(gdf)
      && forall n :: n in Names(out) <==> (n in Names(gdf) && n !in Helpers) || (n in Names(joined) && n !in MonthKeys)
  {
    var g, j := NullWorkaroundOf(gdf), NullWorkaroundOf(joined);
    assert HasPeriod(g);
    var t := WithTimestamps(g);
    assert Valid(t) && Height(t) == Height(gdf) && forall n :: n in MonthKeys ==> n in Names(t) by {
      NullWorkaroundValid(gdf);
      TimestampKeys(g, 0);
    }
    assert Valid(j) by {
      NullWorkaroundValid(joined);
    }
    HelperNames();
    MergeThenDropValid(t, j, MonthKeys, Helpers);
  }

  /**
   * A per-loan-month column other than the keys reaches the output of
   * `final_performance_delinquency` under its own name and type, giving performance
   * row `i` the cell of the per-loan-month row whose key is row `i`'s, or null.
   */
  lemma FinalPerformanceColumn(gdf: seq<Column>, joined: seq<Column>, name: string)
    requires Valid(gdf) && Valid(joined) && FinalPerformanceOf(gdf, joined).Some?
    requires Unique(KeysOf(NullWorkaroundOf(joined), MonthKeys))
    requires ClashOnly(gdf, joined, MonthKeys)
    requires name in Names(joined) && name !in MonthKeys
    ensures var out, g, j := FinalPerformanceOf(gdf, joined).value, NullWorkaroundOf(gdf), NullWorkaroundOf(joined);
      && HasPeriod(g)
      && (forall n :: n in MonthKeys ==> n in Names(WithTimestamps(g)) && n in Names(j))
      && name in Names(out)
      && var col, src := ColumnNamed(out, name), ColumnNamed(j, name);
         && col.dtype == src.dtype && |col.cells| == Height(gdf)
         && forall i :: 0 <= i < Height(gdf) ==> col.cells[i] == Matched(WithTimestamps(g), j, MonthKeys, src, i)
  {
    var g, j := NullWorkaroundOf(gdf), NullWorkaroundOf(joined);
    assert HasPeriod(g);
    var t := WithTimestamps(g);
    assert Valid(t) && Height(t) == Height(gdf) && forall n :: n in MonthKeys ==> n in Names(t) by {
      NullWorkaroundValid(gdf);
      TimestampKeys(g, 0);
    }
    assert Unique(Names(FinalPerformanceOf(gdf, joined).value)) by {
      FinalPerformanceValid(gdf, joined);
    }
    MergeThenDropColumn(t, j, MonthKeys, Helpers, name);
  }

  // ---------------------------------------------------------------- join_perf_acq_gdfs

  /** The key of the join with the acquisition table. */
  const LoanKey: seq<string> := [LoanIdName]

  /**
   * `join_perf_acq_gdfs(perf, acq)`: both tables through `null_workaround`, then a left
   * merge on `loan_id`; `None` where the library raises, when either side has no `loan_id`.
   */
  function JoinPerfAcqOf(perf: seq<Column>, acq: seq<Column>): (r: Option<seq<Column>>)
    ensures r.None? <==> LoanIdName !in Names(perf) || LoanIdName !in Names(acq)
  {
    var p, a := NullWorkaroundOf(perf), NullWorkaroundOf(acq);
    NullWorkaroundMeaning(perf);
    NullWorkaroundMeaning(acq);
    if LoanIdName in Names(p) && LoanIdName in Names(a) then Some(Merge(p, a, LoanKey)) else None
  }

  /**
   * With one acquisition row per loan, the join keeps every performance row once and in
   * order: the performance columns come out as `null_workaround` left them, followed by
   * the acquisition columns other than `loan_id`, each giving row `i` the value of the
   * acquisition row of row `i`'s loan, or null when the loan has none.
   */
  lemma JoinPerfAcqRows(perf: seq<Column>, acq: seq<Column>)
    requires Valid(perf) && JoinPerfAcqOf(perf, acq).Some?
    requires Unique(KeysOf(NullWorkaroundOf(acq), LoanKey))
    ensures var out, p, a := JoinPerfAcqOf(perf, acq).value, NullWorkaroundOf(perf), NullWorkaroundOf(acq);
      && |p| <= |out|
      && out[..|p|] == p
      && MergedTail(out[|p|..], p, a, LoanKey, Without(a, KeySet(LoanKey)))
  {
    NullWorkaroundValid(perf);
    NullWorkaroundMeaning(perf);
    NullWorkaroundMeaning(acq);
    MergeOneToOne(NullWorkaroundOf(perf), NullWorkaroundOf(acq), LoanKey);
  }

  /**
   * The second `null_workaround` in `join_perf_acq_gdfs` changes none of the columns
   * that came from the performance table of `final_performance_delinquency`: they have
   * been through it already.
   */
  lemma PerformanceColumnsSettled(gdf: seq<Column>, joined: seq<Column>)
    requires Valid(gdf) && FinalPerformanceOf(gdf, joined).Some?
    requires Unique(KeysOf(NullWorkaroundOf(joined), MonthKeys))
    ensures var out, kept := FinalPerformanceOf(gdf, joined).value, Without(NullWorkaroundOf(gdf), Helpers);
      |kept| <= |out| && NullWorkaroundOf(out)[..|kept|] == out[..|kept|]
  {
    FinalPerformanceRows(gdf, joined);
    var out, g := FinalPerformanceOf(gdf, joined).value, NullWorkaroundOf(gdf);
    SettledPrefix(out, Without(g, Helpers), gdf);
  }

  /** Columns that `null_workaround` produced, at the front of a table, are left alone by a second pass. */
  lemma SettledPrefix(out: seq<Column>, kept: seq<Column>, gdf: seq<Column>)
    requires |kept| <= |out| && out[..|kept|] == kept
    requires forall c :: c in kept ==> c in NullWorkaroundOf(gdf)
    ensures NullWorkaroundOf(out)[..|kept|] == out[..|kept|]
  {
    var g := NullWorkaroundOf(gdf);
    forall k | 0 <= k < |kept| ensures WorkaroundColumn(out[k]) == out[k] {
      assert out[k] == out[..|kept|][k] == kept[k];
      assert kept[k] in g;
      var a :| 0 <= a < |gdf| && g[a] == kept[k];
      WorkaroundColumnIdempotent(gdf[a]);
    }
  }

  /**
   * When the acquisition table shares only `loan_id` with the performance table, the
   * join returns a valid table of the performance table's height, whose names are the
   * performance names and the acquisition names other than `loan_id`.
   */
  lemma JoinPerfAcqValid(perf: seq<Column>, acq: seq<Column>)
    requires Valid(perf) && Valid(acq) && JoinPerfAcqOf(perf, acq).Some?
    requires Unique(KeysOf(NullWorkaroundOf(acq), LoanKey))
    requires ClashOnly(perf, acq, LoanKey)
    ensures var out := JoinPerfAcqOf(perf, acq).value;
      && Valid(out) && Height(out) == Height(perf)
      && forall n :: n in Names(out) <==> n in Names(perf) || (n in Names(acq) && n != LoanIdName)
  {
    var out, p, a := JoinPerfAcqOf(perf, acq).value, NullWorkaroundOf(perf), NullWorkaroundOf(acq);
    var rest := Without(a, KeySet(LoanKey));
    NullWorkaroundValid(perf);
    NullWorkaroundValid(acq);
    NullWorkaroundNames(perf);
    NullWorkaroundNames(acq);
    WithoutValid(a, KeySet(LoanKey));
    assert LoanIdName in Names(p);
    JoinPerfAcqRows(perf, acq);
    MergedValid(out, p, p, a, LoanKey, rest);
  }

  /** A column of the performance table reaches the joined table as `null_workaround` left it. */
  lemma JoinKeepsColumn(perf: seq<Column>, acq: seq<Column>, name: string)
    requires Valid(perf) && Valid(acq) && JoinPerfAcqOf(perf, acq).Some?
    requires Unique(KeysOf(NullWorkaroundOf(acq), LoanKey))
    requires ClashOnly(perf, acq, LoanKey)
    requires name in Names(perf)
    ensures var out := JoinPerfAcqOf(perf, acq).value;
      name in Names(out) && ColumnNamed(out, name) == WorkaroundColumn(ColumnNamed(perf, name))
  {
    var out, p := JoinPerfAcqOf(perf, acq).value, NullWorkaroundOf(perf);
    JoinPerfAcqValid(perf, acq);
    JoinPerfAcqRows(perf, acq);
    ColumnNamedWorkaround(perf, name);
    var k := IndexOf(name, Names(p)).value;
    assert out[k] == out[..|p|][k] == p[k];
    ColumnNamedAt(out, k);
  }
}
