/**
 * `run_gpu_workflow` on one partition, from the typed performance rows to the table
 * `last_mile_cleaning` hands to training: the per-loan-month table of the earlier
 * stages laid out as the frame `combine_joined_12_mon` returns, the performance frame
 * that holds the same rows, and the label that comes out at the end.
 */
module Workflow {
  import opened Wrappers
  import opened Relational
  import opened Frames
  import opened Features
  import opened Windows
  import opened Assembly
  import opened Cleaning
  import Dates

  const StatusName: string := "current_loan_delinquency_status"
  const UpbName: string := "current_actual_upb"

  /** An optional integer as a cell of an integer column. */
  function IntCell(o: Option<int>): Cell {
    match o
    case None => Null
    case Some(v) => IntV(v)
  }

  /** An optional amount as a cell of a float column. */
  function RealCell(o: Option<real>): Cell {
    match o
    case None => Null
    case Some(x) => RealV(x)
  }

  // ---------------------------------------------------------------- the frame of combine_joined_12_mon

  /** The columns of `joined_df` after `combine_joined_12_mon`, in the library's order. */
  const JoinedNames: seq<string> := [
    LoanIdName, "timestamp", MonthName, YearName,
    "ever_30", "ever_90", "ever_180",
    "delinquency_30", "delinquency_90", "delinquency_180",
    LabelName, "upb_12"]

  /**
   * Their types: `timestamp_month` as `int8` and `timestamp_year` as `int16` after the
   * casts in `combine_joined_12_mon`, the flags as `int8`, the onsets as dates,
   * `delinquency_12` as `int32` and `upb_12` as `float64`.
   */
  const JoinedTypes: seq<DType> := [
    Int64, DateTime, Int8, Int16,
    Int8, Int8, Int8,
    DateTime, DateTime, DateTime,
    Int32, Float64]

  /** The cell column `k` holds for one combined row. */
  function JoinedCell(r: CombinedRow, k: nat): Cell {
    match k
    case 0 => IntV(r.loanId)
    case 1 => DateV(r.timestamp)
    case 2 => IntV(r.month)
    case 3 => IntV(r.year)
    case 4 => IntV(r.ever30)
    case 5 => IntV(r.ever90)
    case 6 => IntV(r.ever180)
    case 7 => DateV(r.d30)
    case 8 => DateV(r.d90)
    case 9 => DateV(r.d180)
    case 10 => IntCell(r.delinquency12)
    case _ => RealCell(r.upb12)
  }

  /** `joined_df` as `combine_joined_12_mon` returns it: one column per name, one cell per combined row. */
  function JoinedFrame(c: seq<CombinedRow>): seq<Column> {
    seq(|JoinedNames|, k requires 0 <= k < |JoinedNames| =>
      Column(JoinedNames[k], JoinedTypes[k], seq(|c|, i requires 0 <= i < |c| => JoinedCell(c[i], k))))
  }

  /** The per-loan-month frame is a table: distinct names, one cell per combined row in every column. */
  lemma JoinedFrameValid(c: seq<CombinedRow>)
    ensures Valid(JoinedFrame(c)) && Height(JoinedFrame(c)) == |c|
    ensures Names(JoinedFrame(c)) == JoinedNames
  {
    assert Names(JoinedFrame(c)) == JoinedNames;
    assert Unique(JoinedNames);
  }

  /** A column of the per-loan-month frame holds no null once every row carries its window's values. */
  lemma JoinedColumnSettled(c: seq<CombinedRow>, k: nat)
    requires forall i :: 0 <= i < |c| ==> c[i].delinquency12.Some? && c[i].upb12.Some?
    requires k < |JoinedNames|
    ensures WorkaroundColumn(JoinedFrame(c)[k]) == JoinedFrame(c)[k]
  {
    var col := JoinedFrame(c)[k];
    assert col.dtype != Category by {
      assert Category !in JoinedTypes;
    }
    assert forall i :: 0 <= i < |col.cells| ==> col.cells[i] != Null;
    WorkaroundSettled(col);
  }

  /** Every combined row carries its window's values. */
  lemma CombinedFilled(rows: seq<PerfRow>)
    ensures var c := CombinedTable(rows);
      forall i :: 0 <= i < |c| ==> c[i].delinquency12.Some? && c[i].upb12.Some?
  {
    var c, joined := CombinedTable(rows), JoinedTable(rows);
    CombinedTableMeaning(rows);
    forall i | 0 <= i < |c| ensures c[i].delinquency12.Some? && c[i].upb12.Some? {
      assert CarriesWindow(joined, joined[i], c[i]);
    }
  }

  /** With every window value present the frame has no null, and `null_workaround` leaves it as it is. */
  lemma JoinedFrameSettled(c: seq<CombinedRow>)
    requires forall i :: 0 <= i < |c| ==> c[i].delinquency12.Some? && c[i].upb12.Some?
    ensures NullWorkaroundOf(JoinedFrame(c)) == JoinedFrame(c)
  {
    var f := JoinedFrame(c);
    forall k | 0 <= k < |f| ensures WorkaroundColumn(f[k]) == f[k] {
      JoinedColumnSettled(c, k);
    }
  }

  /** Column `k` of the per-loan-month frame is the one found under the `k`-th name. */
  lemma JoinedColumn(c: seq<CombinedRow>, k: nat)
    requires k < |JoinedNames|
    ensures JoinedNames[k] in Names(JoinedFrame(c)) && ColumnNamed(JoinedFrame(c), JoinedNames[k]) == JoinedFrame(c)[k]
  {
    JoinedFrameValid(c);
    ColumnNamedAt(JoinedFrame(c), k);
  }

  /** A performance frame that shares only key names with the per-loan-month names shares only those with its frame. */
  lemma JoinedClash(gdf: seq<Column>, c: seq<CombinedRow>)
    requires forall n :: n in Names(gdf) && n in JoinedNames ==> n in MonthKeys
    ensures var f := JoinedFrame(c);
      && Valid(f) && ClashOnly(gdf, f, MonthKeys)
      && (forall n :: n in Names(f) <==> n in JoinedNames)
      && LabelName in Names(f) && LabelName !in MonthKeys
  {
    JoinedFrameValid(c);
    assert JoinedNames[10] == LabelName;
  }

  /** The (loan, year, month) key of every performance row. */
  function RowMonths(rows: seq<PerfRow>): (ks: seq<MonthKey>)
    ensures |ks| == |rows|
    ensures forall i :: 0 <= i < |rows| ==> ks[i] == MonthKey(rows[i].loanId, rows[i].period.year, rows[i].period.month)
  {
    seq(|rows|, i requires 0 <= i < |rows| => MonthKey(rows[i].loanId, rows[i].period.year, rows[i].period.month))
  }

  /** The cells of the re-join key for a performance row: its loan id and its reporting period's year and month. */
  function KeyCells(r: PerfRow): seq<Cell> {
    [IntV(r.loanId), IntV(r.period.year), IntV(r.period.month)]
  }

  /** Combined row `i` is performance row `i`'s loan and month. */
  lemma CombinedKeys(rows: seq<PerfRow>)
    ensures var c := CombinedTable(rows);
      && |c| == |rows|
      && forall i :: 0 <= i < |rows| ==>
           c[i].loanId == rows[i].loanId && c[i].year == rows[i].period.year && c[i].month == rows[i].period.month
  {
    var c, joined := CombinedTable(rows), JoinedTable(rows);
    assert |c| == |rows| == |joined| && forall i :: 0 <= i < |rows| ==> CarriesWindow(joined, joined[i], c[i]) by {
      CombinedTableMeaning(rows);
    }
    forall i | 0 <= i < |rows|
      ensures c[i].loanId == rows[i].loanId && c[i].year == rows[i].period.year && c[i].month == rows[i].period.month
    {
      JoinedRowMeaning(rows, i);
    }
  }

  /**
   * Row `i` of the per-loan-month frame has the key of performance row `i`; with at
   * most one performance row per loan and month those keys are unique, so the re-join
   * in `final_performance_delinquency` is one-to-one.
   */
  lemma JoinedFrameKeys(rows: seq<PerfRow>)
    requires Unique(RowMonths(rows))
    ensures var f := JoinedFrame(CombinedTable(rows));
      && (forall n :: n in MonthKeys ==> n in Names(f))
      && |KeysOf(f, MonthKeys)| == |rows|
      && (forall i :: 0 <= i < |rows| ==> KeysOf(f, MonthKeys)[i] == KeyCells(rows[i]))
      && Unique(KeysOf(f, MonthKeys))
  {
    var c := CombinedTable(rows);
    var f := JoinedFrame(c);
    CombinedKeys(rows);
    assert Height(f) == |c|;
    FrameKeyAt(c, 0);
    var ks := KeysOf(f, MonthKeys);
    forall i | 0 <= i < |rows| ensures ks[i] == KeyCells(rows[i]) {
      FrameKeyAt(c, i);
    }
    forall a, b | 0 <= a < |ks| && 0 <= b < |ks| && ks[a] == ks[b] ensures a == b {
      assert KeyCells(rows[a]) == KeyCells(rows[b]);
      assert RowMonths(rows)[a] == RowMonths(rows)[b];
    }
  }

  /** The re-join key of row `i` of the per-loan-month frame: its loan id, year and month. */
  lemma FrameKeyAt(c: seq<CombinedRow>, i: nat)
    ensures forall n :: n in MonthKeys ==> n in Names(JoinedFrame(c))
    ensures i < |c| ==> KeyAt(JoinedFrame(c), MonthKeys, i) == [IntV(c[i].loanId), IntV(c[i].year), IntV(c[i].month)]
  {
    var f := JoinedFrame(c);
    JoinedFrameValid(c);
    KeyAtColumns(f, MonthKeys, i, 0, 3, 2);
  }

  // ---------------------------------------------------------------- the performance frame

  /**
   * The performance frame holds the typed rows: a table with an integer `loan_id`, a
   * date `monthly_reporting_period`, a status and a balance column whose row `i` is
   * performance row `i`.
   */
  predicate HoldsRows(gdf: seq<Column>, rows: seq<PerfRow>) {
    && Valid(gdf)
    && LoanIdName in Names(gdf) && PeriodName in Names(gdf) && StatusName in Names(gdf) && UpbName in Names(gdf)
    && var loan, period := ColumnNamed(gdf, LoanIdName), ColumnNamed(gdf, PeriodName);
       var status, upb := ColumnNamed(gdf, StatusName), ColumnNamed(gdf, UpbName);
    && IsInteger(loan.dtype) && period.dtype == DateTime
    && |loan.cells| == |rows| && |period.cells| == |rows| && |status.cells| == |rows| && |upb.cells| == |rows|
    && forall i :: 0 <= i < |rows| ==>
         && loan.cells[i] == IntV(rows[i].loanId)
         && period.cells[i] == DateV(rows[i].period)
         && status.cells[i] == IntCell(rows[i].status)
         && upb.cells[i] == RealCell(rows[i].upb)
  }

  /** After `null_workaround` the performance frame is still a table of one row per typed row, with a date period and a `loan_id`. */
  lemma PerfFrameShape(gdf: seq<Column>, rows: seq<PerfRow>)
    requires HoldsRows(gdf, rows)
    ensures var g := NullWorkaroundOf(gdf);
      Valid(g) && HasPeriod(g) && LoanIdName in Names(g) && Height(g) == |rows| && HasPeriod(gdf) && Height(gdf) == |rows|
  {
    var loan := ColumnNamed(gdf, LoanIdName);
    var k :| 0 <= k < |gdf| && gdf[k] == loan;
    NullWorkaroundValid(gdf);
    HasPeriodWorkaround(gdf);
  }

  /** After `null_workaround` and the helper columns, performance row `i` has the re-join key of its typed row. */
  lemma PerfFrameKeys(gdf: seq<Column>, rows: seq<PerfRow>, i: nat)
    requires HoldsRows(gdf, rows) && i < |rows|
    ensures var g := NullWorkaroundOf(gdf);
      && Valid(g) && HasPeriod(g) && LoanIdName in Names(g)
      && KeyAt(WithTimestamps(g), MonthKeys, i) == KeyCells(rows[i])
  {
    var g := NullWorkaroundOf(gdf);
    PerfFrameShape(gdf, rows);
    var loan, period := ColumnNamed(gdf, LoanIdName), ColumnNamed(gdf, PeriodName);
    ColumnNamedWorkaround(gdf, LoanIdName);
    ColumnNamedWorkaround(gdf, PeriodName);
    WorkaroundSettled(loan);
    WorkaroundSettled(period);
    TimestampKeys(g, i);
  }

  /**
   * What the re-join needs of the per-loan-month frame to line up with the performance
   * rows: a table that `null_workaround` leaves as it is, holding the key columns, whose
   * row `i` has the key of performance row `i` and no key twice.
   */
  predicate LinesUp(f: seq<Column>, rows: seq<PerfRow>) {
    && Valid(f) && NullWorkaroundOf(f) == f
    && (forall n :: n in MonthKeys ==> n in Names(f))
    && |KeysOf(f, MonthKeys)| == |rows|
    && (forall i :: 0 <= i < |rows| ==> KeysOf(f, MonthKeys)[i] == KeyCells(rows[i]))
    && Unique(KeysOf(f, MonthKeys))
  }

  /** The per-loan-month frame built from the performance rows lines up with them when no loan and month occurs twice. */
  lemma JoinedLinesUp(rows: seq<PerfRow>)
    requires Unique(RowMonths(rows))
    ensures LinesUp(JoinedFrame(CombinedTable(rows)), rows)
  {
    var c := CombinedTable(rows);
    CombinedFilled(rows);
    JoinedFrameSettled(c);
    JoinedFrameValid(c);
    JoinedFrameKeys(rows);
  }

  /** The re-join gives performance row `i` the cell of row `i` of a frame that lines up with the rows. */
  lemma RejoinCell(gdf: seq<Column>, rows: seq<PerfRow>, f: seq<Column>, src: Column, i: nat)
    requires HoldsRows(gdf, rows) && LinesUp(f, rows) && i < |rows| && |src.cells| == |rows|
    ensures var g := NullWorkaroundOf(gdf);
      && HasPeriod(g)
      && (forall n :: n in MonthKeys ==> n in Names(WithTimestamps(g)) && n in Names(f))
      && Matched(WithTimestamps(g), f, MonthKeys, src, i) == src.cells[i]
  {
    PerfFrameKeys(gdf, rows, i);
    TimestampKeys(NullWorkaroundOf(gdf), i);
    IndexOfUnique(KeysOf(f, MonthKeys), i);
  }

  /**
   * `final_performance_delinquency` against a frame that lines up with the performance
   * rows and shares only key names with the performance frame: it succeeds, returns a
   * table of one row per performance row whose names are the performance names other
   * than the helpers and the frame's names other than the keys, and every non-key
   * column of the frame comes out with its type and its cells in the same rows.
   */
  lemma RejoinCarries(gdf: seq<Column>, rows: seq<PerfRow>, f: seq<Column>, name: string)
    requires HoldsRows(gdf, rows) && LinesUp(f, rows) && ClashOnly(gdf, f, MonthKeys)
    requires name in Names(f) && name !in MonthKeys
    ensures var perf := FinalPerformanceOf(gdf, f);
      && perf.Some? && Valid(perf.value) && Height(perf.value) == |rows|
      && (forall n :: n in Names(perf.value) <==> (n in Names(gdf) && n !in Helpers) || (n in Names(f) && n !in MonthKeys))
      && name in Names(perf.value)
      && ColumnNamed(perf.value, name).dtype == ColumnNamed(f, name).dtype
      && ColumnNamed(perf.value, name).cells == ColumnNamed(f, name).cells
  {
    PerfFrameShape(gdf, rows);
    assert FinalPerformanceOf(gdf, f).Some? by {
      FinalPerformanceFails(gdf, f);
    }
    FinalPerformanceValid(gdf, f);
    FinalPerformanceColumn(gdf, f, name);
    var col, src := ColumnNamed(FinalPerformanceOf(gdf, f).value, name), ColumnNamed(f, name);
    assert |src.cells| == |rows| by {
      assert src in f;
    }
    forall i | 0 <= i < |rows| ensures col.cells[i] == src.cells[i] {
      RejoinCell(gdf, rows, f, src, i);
    }
  }

  /** The `delinquency_12` column of the per-loan-month frame: `int32`, row `i` holding combined row `i`'s value. */
  lemma JoinedLabel(c: seq<CombinedRow>)
    ensures var f := JoinedFrame(c);
      && LabelName in Names(f) && LabelName !in MonthKeys
      && ColumnNamed(f, LabelName).dtype == Int32
      && |ColumnNamed(f, LabelName).cells| == |c|
      && forall i :: 0 <= i < |c| ==> ColumnNamed(f, LabelName).cells[i] == IntCell(c[i].delinquency12)
  {
    JoinedColumn(c, 10);
  }

  // ---------------------------------------------------------------- the join with the acquisitions and the last mile

  /**
   * `join_perf_acq_gdfs` then `last_mile_cleaning`: against one acquisition row per loan
   * and no shared names beyond `loan_id`, a non-category column without nulls passes the
   * join unchanged, and row `i` of the output label is 1 exactly when row `i` of the
   * performance table's `delinquency_12` is positive.
   */
  lemma JoinThenClean(perf: seq<Column>, acq: seq<Column>)
    requires Valid(perf) && Valid(acq) && JoinPerfAcqOf(perf, acq).Some?
    requires Unique(KeysOf(NullWorkaroundOf(acq), LoanKey))
    requires ClashOnly(perf, acq, LoanKey)
    requires LabelName in Names(perf)
    requires var l := ColumnNamed(perf, LabelName);
      l.dtype != Category && forall i :: 0 <= i < |l.cells| ==> l.cells[i] != Null
    requires LastMileOf(JoinPerfAcqOf(perf, acq).value).Some?
    ensures var out, l := LastMileOf(JoinPerfAcqOf(perf, acq).value).value, ColumnNamed(perf, LabelName);
      && LabelName in Names(out)
      && |ColumnNamed(out, LabelName).cells| == |l.cells|
      && forall i :: 0 <= i < |l.cells| ==> ColumnNamed(out, LabelName).cells[i] == IntV(if Positive(l.cells[i]) then 1 else 0)
  {
    JoinPerfAcqValid(perf, acq);
    JoinKeepsColumn(perf, acq, LabelName);
    WorkaroundSettled(ColumnNamed(perf, LabelName));
    LastMileLabel(JoinPerfAcqOf(perf, acq).value);
  }

  // ---------------------------------------------------------------- the whole pipeline

  /**
   * `final_performance_delinquency`, `join_perf_acq_gdfs` and `last_mile_cleaning` in
   * sequence, on the performance frame, the per-loan-month frame and the acquisition
   * frame; `None` where one of them raises.
   */
  function PipelineOf(gdf: seq<Column>, joined: seq<Column>, acq: seq<Column>): Option<seq<Column>> {
    match FinalPerformanceOf(gdf, joined)
    case None => None
    case Some(perf) =>
      match JoinPerfAcqOf(perf, acq)
      case None => None
      case Some(f) => LastMileOf(f)
  }

  /** The pipeline on the performance frame and the per-loan-month frame built from its rows. */
  function WorkflowOf(gdf: seq<Column>, rows: seq<PerfRow>, acq: seq<Column>): Option<seq<Column>> {
    PipelineOf(gdf, JoinedFrame(CombinedTable(rows)), acq)
  }

  /** Names shared by the re-joined table and the acquisition table can only be `loan_id`, when the acquisition table shares no other name with either input. */
  lemma ClashAfterRejoin(perf: seq<Column>, gdf: seq<Column>, f: seq<Column>, acq: seq<Column>)
    requires forall n :: n in Names(perf) <==> (n in Names(gdf) && n !in Helpers) || (n in Names(f) && n !in MonthKeys)
    requires forall n :: n in Names(acq) && n != LoanIdName ==> n !in Names(gdf) && n !in Names(f)
    ensures ClashOnly(perf, acq, LoanKey)
  {
  }

  /**
   * Through the whole pipeline, against a per-loan-month frame that lines up with the
   * performance rows and an acquisition frame of one row per loan, with names shared only
   * among the join keys: row `i` of the output label is 1 exactly when row `i` of the
   * frame's `delinquency_12` is positive.
   */
  lemma PipelineLabel(gdf: seq<Column>, rows: seq<PerfRow>, f: seq<Column>, acq: seq<Column>)
    requires HoldsRows(gdf, rows) && LinesUp(f, rows) && ClashOnly(gdf, f, MonthKeys)
    requires LabelName in Names(f) && LabelName !in MonthKeys
    requires var l := ColumnNamed(f, LabelName);
      l.dtype != Category && forall i :: 0 <= i < |l.cells| ==> l.cells[i] != Null
    requires Valid(acq) && LoanIdName in Names(acq) && Unique(KeysOf(NullWorkaroundOf(acq), LoanKey))
    requires forall n :: n in Names(acq) && n != LoanIdName ==> n !in Names(gdf) && n !in Names(f)
    requires PipelineOf(gdf, f, acq).Some?
    ensures var out, l := PipelineOf(gdf, f, acq).value, ColumnNamed(f, LabelName);
      && LabelName in Names(out)
      && |ColumnNamed(out, LabelName).cells| == |rows|
      && forall i :: 0 <= i < |rows| ==> ColumnNamed(out, LabelName).cells[i] == IntV(if Positive(l.cells[i]) then 1 else 0)
  {
    var perf := FinalPerformanceOf(gdf, f).value;
    var l := ColumnNamed(f, LabelName);
    assert Valid(perf) && ClashOnly(perf, acq, LoanKey) && LabelName in Names(perf)
      && ColumnNamed(perf, LabelName).dtype == l.dtype && ColumnNamed(perf, LabelName).cells == l.cells && |l.cells| == |rows|
    by {
      RejoinCarries(gdf, rows, f, LabelName);
      ClashAfterRejoin(perf, gdf, f, acq);
      assert l in f;
    }
    var mid := JoinPerfAcqOf(perf, acq).value;
    assert PipelineOf(gdf, f, acq) == LastMileOf(mid);
    JoinThenClean(perf, acq);
  }

  /** The label a combined row carries is positive exactly when its window has a serious status or a zero least balance. */
  lemma LabelPositive(joined: seq<JoinedRow>, r: JoinedRow, c: CombinedRow)
    requires CarriesWindow(joined, r, c)
    ensures Positive(IntCell(c.delinquency12))
      <==> Serious(joined, r.loanId, Ordinal(r)) || IsWindowMin(joined, r.loanId, Ordinal(r), 0.0)
  {
    var u := c.upb12.value;
    if IsWindowMin(joined, r.loanId, Ordinal(r), 0.0) {
      WindowMinUnique(joined, r.loanId, Ordinal(r), u, 0.0);
    }
  }

  /**
   * The `delinquency_12` of combined row `i` is positive exactly when, in the twelve
   * months of performance row `i`'s loan from its reporting month, some status is above
   * 3 or the least balance is zero.
   */
  lemma CombinedLabels(rows: seq<PerfRow>)
    ensures var c, joined := CombinedTable(rows), JoinedTable(rows);
      && |c| == |rows|
      && forall i :: 0 <= i < |rows| ==>
           var loan, start := rows[i].loanId, Dates.MonthOrdinal(rows[i].period);
           Positive(IntCell(c[i].delinquency12)) <==> Serious(joined, loan, start) || IsWindowMin(joined, loan, start, 0.0)
  {
    var c, joined := CombinedTable(rows), JoinedTable(rows);
    assert |c| == |rows| == |joined| && forall i :: 0 <= i < |rows| ==> CarriesWindow(joined, joined[i], c[i]) by {
      CombinedTableMeaning(rows);
    }
    CombinedKeys(rows);
    LabelsOfRows(joined, c, rows);
  }

  /** `CombinedLabels` for any combined rows that carry their windows and have the performance rows' loans and months. */
  lemma LabelsOfRows(joined: seq<JoinedRow>, c: seq<CombinedRow>, rows: seq<PerfRow>)
    requires |c| == |rows| == |joined|
    requires forall i :: 0 <= i < |rows| ==> CarriesWindow(joined, joined[i], c[i])
    requires forall i :: 0 <= i < |rows| ==>
      c[i].loanId == rows[i].loanId && c[i].year == rows[i].period.year && c[i].month == rows[i].period.month
    ensures forall i :: 0 <= i < |rows| ==>
      var loan, start := rows[i].loanId, Dates.MonthOrdinal(rows[i].period);
      Positive(IntCell(c[i].delinquency12)) <==> Serious(joined, loan, start) || IsWindowMin(joined, loan, start, 0.0)
  {
    forall i | 0 <= i < |rows|
      ensures var loan, start := rows[i].loanId, Dates.MonthOrdinal(rows[i].period);
        Positive(IntCell(c[i].delinquency12)) <==> Serious(joined, loan, start) || IsWindowMin(joined, loan, start, 0.0)
    {
      assert CarriesWindow(joined, joined[i], c[i]);
      assert Ordinal(joined[i]) == Dates.MonthOrdinal(rows[i].period);
      LabelPositive(joined, joined[i], c[i]);
    }
  }

  /**
   * The per-loan-month frame built from the performance rows meets what the re-join
   * needs, and its label column holds each combined row's `delinquency_12`, never null.
   */
  lemma JoinedReady(gdf: seq<Column>, rows: seq<PerfRow>)
    requires Unique(RowMonths(rows))
    requires forall n :: n in Names(gdf) && n in JoinedNames ==> n in MonthKeys
    ensures var c := CombinedTable(rows); var f := JoinedFrame(c);
      && |c| == |rows|
      && LinesUp(f, rows) && ClashOnly(gdf, f, MonthKeys) && (forall n :: n in Names(f) <==> n in JoinedNames)
      && LabelName in Names(f) && LabelName !in MonthKeys
      && var l := ColumnNamed(f, LabelName);
         && l.dtype == Int32 && |l.cells| == |rows|
         && forall i :: 0 <= i < |rows| ==> l.cells[i] == IntCell(c[i].delinquency12) && l.cells[i] != Null
  {
    var c := CombinedTable(rows);
    assert |c| == |rows| by {
      CombinedTableMeaning(rows);
    }
    JoinedLinesUp(rows);
    JoinedClash(gdf, c);
    JoinedLabel(c);
    CombinedFilled(rows);
  }

  /**
   * The label the pipeline produces: with one performance row per loan and month, one
   * acquisition row per loan and no column names shared beyond the join keys, the
   * `delinquency_12` of output row `i` is 1 exactly when, in the twelve months of its
   * loan starting at its own reporting month, some status is above 3 or the least
   * balance is zero, and 0 otherwise.
   */
  lemma WorkflowLabel(gdf: seq<Column>, rows: seq<PerfRow>, acq: seq<Column>)
    requires HoldsRows(gdf, rows) && Unique(RowMonths(rows))
    requires forall n :: n in Names(gdf) && n in JoinedNames ==> n in MonthKeys
    requires Valid(acq) && LoanIdName in Names(acq) && Unique(KeysOf(NullWorkaroundOf(acq), LoanKey))
    requires forall n :: n in Names(acq) && n != LoanIdName ==> n !in Names(gdf) && n !in JoinedNames
    requires WorkflowOf(gdf, rows, acq).Some?
    ensures var out, joined := WorkflowOf(gdf, rows, acq).value, JoinedTable(rows);
      && LabelName in Names(out)
      && |ColumnNamed(out, LabelName).cells| == |rows|
      && forall i :: 0 <= i < |rows| ==>
           var loan, start := rows[i].loanId, Dates.MonthOrdinal(rows[i].period);
           ColumnNamed(out, LabelName).cells[i]
             == IntV(if Serious(joined, loan, start) || IsWindowMin(joined, loan, start, 0.0) then 1 else 0)
  {
    var f := JoinedFrame(CombinedTable(rows));
    JoinedReady(gdf, rows);
    PipelineLabel(gdf, rows, f, acq);
    CombinedLabels(rows);
  }
}
