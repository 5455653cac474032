/**
 * The 12-month window stage of the mortgage ETL (`create_12_mon_features`) and the
 * re-join of its labels onto the per-loan-month table (`combine_joined_12_mon`).
 *
 * For every offset y in 1..12 the month ordinal `year * 12 + month` is cut into
 * buckets of twelve consecutive months, the rows of a loan in one bucket are
 * aggregated, and the bucket is labelled with the month at which it starts. The
 * window therefore looks FORWARD from the month it labels: the label of
 * (loan, year, month) summarises that month and the eleven after it.
 */
module Windows {
  import opened Wrappers
  import opened Relational
  import opened Features
  import Dates

  /** `n_months`: the width of a window and the number of offsets. */
  const Months: int := 12

  /** The ordinal of January 2000 minus one month: `24000` in the bucket formula. */
  const BaseOrdinal: int := 24000

  /** `josh_months`: the linear month ordinal of a per-loan-month row. */
  function Ordinal(r: JoinedRow): int {
    r.year * Months + r.month
  }

  /** `josh_mody_n = floor((josh_months - 24000 - y) / 12)`; Dafny's `/` floors for a positive divisor. */
  function Bucket(ordinal: int, y: int): int {
    (ordinal - BaseOrdinal - y) / Months
  }

  /** `floor((josh_mody_n * 12 + 24000 + (y - 1)) / 12)`: the year a bucket is labelled with. */
  function TargetYear(n: int, y: int): int {
    (n * Months + BaseOrdinal + (y - 1)) / Months
  }

  /** The first month ordinal of bucket `n` under offset `y`. */
  function WindowStart(n: int, y: int): int {
    BaseOrdinal + Months * n + y
  }

  /** Two months share bucket `n` under offset `y` exactly when their ordinals lie in the same twelve consecutive months. */
  lemma BucketBounds(ordinal: int, y: int, n: int)
    ensures Bucket(ordinal, y) == n <==> WindowStart(n, y) <= ordinal <= WindowStart(n, y) + 11
  {
    var d := ordinal - BaseOrdinal - y;
    if WindowStart(n, y) <= ordinal <= WindowStart(n, y) + 11 {
      DivUnique(d, n);
    }
  }

  /** Floor division by twelve has one answer: the n with 12n <= d < 12n + 12. */
  lemma DivUnique(d: int, n: int)
    requires Months * n <= d < Months * n + Months
    ensures d / Months == n
  {
    var q, r := d / Months, d % Months;
    assert d == Months * q + r && 0 <= r < Months;
    assert Months * (q - n) < Months && Months * (n - q) < Months;
  }

  /**
   * A bucket maps back to the year 2000 + n and, being labelled with month y, to the
   * month ordinal at which its window starts.
   */
  lemma TargetOfBucket(n: int, y: int)
    requires 1 <= y <= Months
    ensures TargetYear(n, y) == 2000 + n
    ensures TargetYear(n, y) * Months + y == WindowStart(n, y)
  {
    assert n * Months + BaseOrdinal + (y - 1) == Months * (2000 + n) + (y - 1);
  }

  /** A group key of one offset: `(loan_id, josh_mody_n)`. */
  datatype BucketKey = BucketKey(loanId: int, n: int)

  function BucketOf(r: JoinedRow, y: int): BucketKey {
    BucketKey(r.loanId, Bucket(Ordinal(r), y))
  }

  function BucketKeys(rows: seq<JoinedRow>, y: int): (ks: seq<BucketKey>)
    ensures |ks| == |rows|
    ensures forall i :: 0 <= i < |rows| ==> ks[i] == BucketOf(rows[i], y)
  {
    seq(|rows|, i requires 0 <= i < |rows| => BucketOf(rows[i], y))
  }

  /** The `max` aggregate of `delinquency_12` over one group; null for a key no row has. */
  function GroupMax(rows: seq<JoinedRow>, y: int, key: BucketKey): (m: Option<int>)
    ensures m.None? <==> forall i :: 0 <= i < |rows| ==> BucketOf(rows[i], y) != key
    ensures m.Some? ==> exists i :: 0 <= i < |rows| && BucketOf(rows[i], y) == key && rows[i].delinquency12 == m.value
    ensures m.Some? ==> forall i :: 0 <= i < |rows| && BucketOf(rows[i], y) == key ==> rows[i].delinquency12 <= m.value
  {
    if rows == [] then None
    else
      var init, r := rows[..|rows| - 1], rows[|rows| - 1];
      assert forall i :: 0 <= i < |init| ==> init[i] == rows[i];
      var m' := GroupMax(init, y, key);
      if BucketOf(r, y) != key then m'
      else if m'.None? || m'.value < r.delinquency12 then Some(r.delinquency12)
      else m'
  }

  /** The `min` aggregate of `upb_12` over one group; null for a key no row has. */
  function GroupMin(rows: seq<JoinedRow>, y: int, key: BucketKey): (m: Option<real>)
    ensures m.None? <==> forall i :: 0 <= i < |rows| ==> BucketOf(rows[i], y) != key
    ensures m.Some? ==> exists i :: 0 <= i < |rows| && BucketOf(rows[i], y) == key && rows[i].upb12 == m.value
    ensures m.Some? ==> forall i :: 0 <= i < |rows| && BucketOf(rows[i], y) == key ==> m.value <= rows[i].upb12
  {
    if rows == [] then None
    else
      var init, r := rows[..|rows| - 1], rows[|rows| - 1];
      assert forall i :: 0 <= i < |init| ==> init[i] == rows[i];
      var m' := GroupMin(init, y, key);
      if BucketOf(r, y) != key then m'
      else if m'.None? || r.upb12 < m'.value then Some(r.upb12)
      else m'
  }

  /** `(max_delinquency_12 > 3) + (min_upb_12 == 0)`: an integer sum of two flags, not a logical or. */
  function Label(maxStatus: int, minUpb: real): (l: int)
    ensures 0 <= l <= 2
    ensures l > 0 <==> maxStatus > 3 || minUpb == 0.0
  {
    (if maxStatus > 3 then 1 else 0) + (if minUpb == 0.0 then 1 else 0)
  }

  /** One row of a per-offset table: the group's loan, its target year and month, its label and minimum balance. */
  datatype WindowRow = WindowRow(loanId: int, year: int, month: int, delinquency12: int, upb12: real)

  /** The window row of one group of offset `y`. */
  function WindowOf(rows: seq<JoinedRow>, y: int, key: BucketKey): (w: WindowRow)
    requires key in BucketKeys(rows, y)
    ensures w.loanId == key.loanId && w.month == y
  {
    var ks := BucketKeys(rows, y);
    var i :| 0 <= i < |ks| && ks[i] == key;
    var mx, mn := GroupMax(rows, y, key), GroupMin(rows, y, key);
    assert mx.Some? && mn.Some?;
    WindowRow(key.loanId, TargetYear(key.n, y), y, Label(mx.value, mn.value), mn.value)
  }

  /** The table one iteration of the loop appends to `testdfs`: one row per `(loan_id, josh_mody_n)` group. */
  function OffsetTable(rows: seq<JoinedRow>, y: int): seq<WindowRow> {
    var groups := Distinct(BucketKeys(rows, y));
    seq(|groups|, g requires 0 <= g < |groups| => WindowOf(rows, y, groups[g]))
  }

  /** `cudf.concat`: the tables one after the other, no row dropped or merged. */
  function Concat(ts: seq<seq<WindowRow>>): seq<WindowRow> {
    if ts == [] then [] else Concat(ts[..|ts| - 1]) + ts[|ts| - 1]
  }

  /** The tables of offsets 1..12, in loop order. */
  function OffsetTables(rows: seq<JoinedRow>): (ts: seq<seq<WindowRow>>)
    ensures |ts| == Months
  {
    seq(Months, k requires 0 <= k < Months => OffsetTable(rows, k + 1))
  }

  /** The result of `create_12_mon_features`: the tables of all twelve offsets, concatenated. */
  function WindowTable(rows: seq<JoinedRow>): seq<WindowRow> {
    Concat(OffsetTables(rows))
  }

  /** `create_12_mon_features`: the loop over the twelve offsets, appending each grouped table to `testdfs`. */
  method CreateTwelveMonFeatures(joined: seq<JoinedRow>) returns (testdf: seq<WindowRow>)
    ensures testdf == WindowTable(joined)
  {
    var testdfs: seq<seq<WindowRow>> := [];
    var y := 1;
    while y <= Months
      invariant 1 <= y <= Months + 1
      invariant testdfs == OffsetTables(joined)[..y - 1]
    {
      var tmpdf := OffsetTable(joined, y);
      assert OffsetTables(joined)[..y] == OffsetTables(joined)[..y - 1] + [tmpdf];
      testdfs := testdfs + [tmpdf];
      y := y + 1;
    }
    assert testdfs == OffsetTables(joined);
    testdf := Concat(testdfs);
  }

  // ---------------------------------------------------------------- what a window row means

  /** Row `r` is one of `loan`'s rows in the twelve months starting at ordinal `start`. */
  predicate InWindow(r: JoinedRow, loan: int, start: int) {
    r.loanId == loan && start <= Ordinal(r) <= start + 11
  }

  /** `u` is the least `upb_12` among `loan`'s rows in the window starting at `start`. */
  predicate IsWindowMin(rows: seq<JoinedRow>, loan: int, start: int, u: real) {
    && (exists i :: 0 <= i < |rows| && InWindow(rows[i], loan, start) && rows[i].upb12 == u)
    && (forall i :: 0 <= i < |rows| && InWindow(rows[i], loan, start) ==> u <= rows[i].upb12)
  }

  /** A window has one least balance. */
  lemma WindowMinUnique(rows: seq<JoinedRow>, loan: int, start: int, u: real, v: real)
    requires IsWindowMin(rows, loan, start, u) && IsWindowMin(rows, loan, start, v)
    ensures u == v
  {
    var a :| 0 <= a < |rows| && InWindow(rows[a], loan, start) && rows[a].upb12 == u;
    var b :| 0 <= b < |rows| && InWindow(rows[b], loan, start) && rows[b].upb12 == v;
  }

  /** Some row of `loan` in the window starting at `start` has `delinquency_12` above 3. */
  predicate Serious(rows: seq<JoinedRow>, loan: int, start: int) {
    exists i :: 0 <= i < |rows| && InWindow(rows[i], loan, start) && rows[i].delinquency12 > 3
  }

  /**
   * Window row `w` summarises the twelve months of its loan starting at its own
   * (year, month): `upb_12` is their least balance, and `delinquency_12` adds 1 for a
   * status above 3 and 1 for a least balance of exactly zero.
   */
  predicate Describes(rows: seq<JoinedRow>, w: WindowRow) {
    var start := w.year * Months + w.month;
    && IsWindowMin(rows, w.loanId, start, w.upb12)
    && w.delinquency12 == (if Serious(rows, w.loanId, start) then 1 else 0) + (if w.upb12 == 0.0 then 1 else 0)
  }

  /** A row is in group `key` of offset `y` exactly when it lies in the window starting at the group's label. */
  lemma BucketMembership(r: JoinedRow, y: int, key: BucketKey)
    requires 1 <= y <= Months
    ensures BucketOf(r, y) == key <==> InWindow(r, key.loanId, WindowStart(key.n, y))
  {
    BucketBounds(Ordinal(r), y, key.n);
  }

  /** Each group of offset `y` is labelled with year 2000 + n and month y, and describes the window starting there. */
  lemma {:induction false} WindowOfMeaning(rows: seq<JoinedRow>, y: int, key: BucketKey)
    requires 1 <= y <= Months && key in BucketKeys(rows, y)
    ensures WindowOf(rows, y, key).year == 2000 + key.n
    ensures Describes(rows, WindowOf(rows, y, key))
  {
    var w := WindowOf(rows, y, key);
    TargetOfBucket(key.n, y);
    var start := WindowStart(key.n, y);
    assert w.year * Months + w.month == start;
    forall i | 0 <= i < |rows|
      ensures BucketOf(rows[i], y) == key <==> InWindow(rows[i], key.loanId, start)
    {
      BucketMembership(rows[i], y, key);
    }
    var mx, mn := GroupMax(rows, y, key), GroupMin(rows, y, key);
    assert mx.Some? && mn.Some? by {
      var i :| 0 <= i < |rows| && BucketKeys(rows, y)[i] == key;
    }
    assert w.upb12 == mn.value;
    assert IsWindowMin(rows, key.loanId, start, w.upb12);
    assert (mx.value > 3) <==> Serious(rows, key.loanId, start) by {
      if Serious(rows, key.loanId, start) {
        var i :| 0 <= i < |rows| && InWindow(rows[i], key.loanId, start) && rows[i].delinquency12 > 3;
        assert rows[i].delinquency12 <= mx.value;
      }
    }
  }

  /** The key of a window row, and of a per-loan-month row: `(loan_id, timestamp_year, timestamp_month)`. */
  datatype MonthKey = MonthKey(loanId: int, year: int, month: int)

  function WindowKeys(t: seq<WindowRow>): (ks: seq<MonthKey>)
    ensures |ks| == |t|
    ensures forall i :: 0 <= i < |t| ==> ks[i] == MonthKey(t[i].loanId, t[i].year, t[i].month)
  {
    seq(|t|, i requires 0 <= i < |t| => MonthKey(t[i].loanId, t[i].year, t[i].month))
  }

  /** Row g of the table of offset y is the window of the g-th distinct group, labelled 2000 + n. */
  lemma OffsetRow(rows: seq<JoinedRow>, y: int, g: nat)
    requires 1 <= y <= Months && g < |Distinct(BucketKeys(rows, y))|
    ensures var groups := Distinct(BucketKeys(rows, y)); var t := OffsetTable(rows, y);
      && |t| == |groups| && t[g] == WindowOf(rows, y, groups[g])
      && t[g].loanId == groups[g].loanId && t[g].year == 2000 + groups[g].n && t[g].month == y
      && Describes(rows, t[g])
  {
    WindowOfMeaning(rows, y, Distinct(BucketKeys(rows, y))[g]);
  }

  /** Within one offset a (loan, year, month) key occurs at most once, and every row describes its window. */
  lemma OffsetTableUnique(rows: seq<JoinedRow>, y: int)
    requires 1 <= y <= Months
    ensures var t := OffsetTable(rows, y);
      && Unique(WindowKeys(t))
      && (forall g :: 0 <= g < |t| ==> t[g].month == y && Describes(rows, t[g]))
  {
    var t := OffsetTable(rows, y);
    var groups := Distinct(BucketKeys(rows, y));
    forall g | 0 <= g < |t|
      ensures t[g].month == y && Describes(rows, t[g])
    {
      OffsetRow(rows, y, g);
    }
    forall a, b | 0 <= a < |t| && 0 <= b < |t| && WindowKeys(t)[a] == WindowKeys(t)[b]
      ensures a == b
    {
      OffsetRow(rows, y, a);
      OffsetRow(rows, y, b);
      assert groups[a] == groups[b];
    }
  }

  /** Every row of the input whose month is y finds its own (loan, year, month) key in the table of offset y. */
  lemma OffsetTableComplete(rows: seq<JoinedRow>, y: int)
    requires 1 <= y <= Months
    ensures forall i :: 0 <= i < |rows| && rows[i].month == y ==> MonthKey(rows[i].loanId, rows[i].year, y) in WindowKeys(OffsetTable(rows, y))
  {
    var t := OffsetTable(rows, y);
    var groups := Distinct(BucketKeys(rows, y));
    forall i | 0 <= i < |rows| && rows[i].month == y
      ensures MonthKey(rows[i].loanId, rows[i].year, y) in WindowKeys(t)
    {
      var key := BucketOf(rows[i], y);
      assert BucketKeys(rows, y)[i] == key;
      var g :| 0 <= g < |groups| && groups[g] == key;
      OffsetRow(rows, y, g);
      BucketBounds(Ordinal(rows[i]), y, rows[i].year - 2000);
      assert WindowKeys(t)[g] == MonthKey(rows[i].loanId, rows[i].year, y);
    }
  }

  /**
   * The tables of offsets 1..k have unique (loan, year, month) keys, since each offset
   * labels its rows with its own month; every row describes its window; and every input
   * row whose month is at most k finds its key.
   */
  lemma {:induction false} OffsetsUpToMeaning(rows: seq<JoinedRow>, k: nat)
    requires k <= Months
    ensures var t := Concat(OffsetTables(rows)[..k]);
      && Unique(WindowKeys(t))
      && (forall g :: 0 <= g < |t| ==> 1 <= t[g].month <= k && Describes(rows, t[g]))
      && (forall i :: 0 <= i < |rows| && 1 <= rows[i].month <= k ==> MonthKey(rows[i].loanId, rows[i].year, rows[i].month) in WindowKeys(t))
  {
    if k > 0 {
      OffsetsUpToMeaning(rows, k - 1);
      OffsetTableUnique(rows, k);
      OffsetTableComplete(rows, k);
      var ts := OffsetTables(rows)[..k];
      assert ts[..k - 1] == OffsetTables(rows)[..k - 1];
      assert Concat(ts) == Concat(OffsetTables(rows)[..k - 1]) + OffsetTable(rows, k);
      ConcatStep(rows, Concat(OffsetTables(rows)[..k - 1]), OffsetTable(rows, k), k);
    }
  }

  /** Appending the table of offset `k` to those of offsets 1..k-1 keeps the keys unique, the rows described and every key found. */
  lemma ConcatStep(rows: seq<JoinedRow>, a: seq<WindowRow>, b: seq<WindowRow>, k: int)
    requires 1 <= k
    requires Unique(WindowKeys(a)) && forall g :: 0 <= g < |a| ==> 1 <= a[g].month <= k - 1 && Describes(rows, a[g])
    requires forall i :: 0 <= i < |rows| && 1 <= rows[i].month <= k - 1 ==> MonthKey(rows[i].loanId, rows[i].year, rows[i].month) in WindowKeys(a)
    requires Unique(WindowKeys(b)) && forall g :: 0 <= g < |b| ==> b[g].month == k && Describes(rows, b[g])
    requires forall i :: 0 <= i < |rows| && rows[i].month == k ==> MonthKey(rows[i].loanId, rows[i].year, k) in WindowKeys(b)
    ensures var t := a + b;
      && Unique(WindowKeys(t))
      && (forall g :: 0 <= g < |t| ==> 1 <= t[g].month <= k && Describes(rows, t[g]))
      && (forall i :: 0 <= i < |rows| && 1 <= rows[i].month <= k ==> MonthKey(rows[i].loanId, rows[i].year, rows[i].month) in WindowKeys(t))
  {
    var t := a + b;
    assert WindowKeys(t) == WindowKeys(a) + WindowKeys(b);
    UniqueAppend(WindowKeys(a), WindowKeys(b));
    forall g | 0 <= g < |t|
      ensures 1 <= t[g].month <= k && Describes(rows, t[g])
    {
      if g < |a| {
        assert t[g] == a[g];
      } else {
        assert t[g] == b[g - |a|];
      }
    }
    forall i | 0 <= i < |rows| && 1 <= rows[i].month <= k
      ensures MonthKey(rows[i].loanId, rows[i].year, rows[i].month) in WindowKeys(t)
    {
      if rows[i].month < k {
        assert MonthKey(rows[i].loanId, rows[i].year, rows[i].month) in WindowKeys(a);
      } else {
        assert MonthKey(rows[i].loanId, rows[i].year, rows[i].month) in WindowKeys(b);
      }
    }
  }

  /**
   * `create_12_mon_features` returns at most one row per (loan, year, month), however
   * many offsets there are; each row describes the twelve months starting at its label
   * and has `delinquency_12` in 0..2; and every per-loan-month row finds its key.
   */
  lemma WindowTableMeaning(rows: seq<JoinedRow>)
    ensures var t := WindowTable(rows);
      && Unique(WindowKeys(t))
      && (forall g :: 0 <= g < |t| ==> 1 <= t[g].month <= Months && Describes(rows, t[g]) && 0 <= t[g].delinquency12 <= 2)
      && (forall i :: 0 <= i < |rows| && 1 <= rows[i].month <= Months ==> MonthKey(rows[i].loanId, rows[i].year, rows[i].month) in WindowKeys(t))
  {
    OffsetsUpToMeaning(rows, Months as nat);
    assert OffsetTables(rows)[..Months] == OffsetTables(rows);
  }

  // ---------------------------------------------------------------- combine_joined_12_mon

  /** A row of `joined_df` after `combine_joined_12_mon`: the per-month label and balance come from the window table. */
  datatype CombinedRow = CombinedRow(
    loanId: int, timestamp: Dates.Date, month: int, year: int,
    ever30: int, ever90: int, ever180: int,
    d30: Dates.Date, d90: Dates.Date, d180: Dates.Date,
    delinquency12: Option<int>, upb12: Option<real>)

  function JoinedKeys(rows: seq<JoinedRow>): (ks: seq<MonthKey>)
    ensures |ks| == |rows|
    ensures forall i :: 0 <= i < |rows| ==> ks[i] == MonthKey(rows[i].loanId, rows[i].year, rows[i].month)
  {
    seq(|rows|, i requires 0 <= i < |rows| => MonthKey(rows[i].loanId, rows[i].year, rows[i].month))
  }

  /** One output row: the per-month row without its provisional `delinquency_12`/`upb_12`, and the matched window's, or nulls. */
  function AttachWindow(r: JoinedRow, w: Option<WindowRow>): CombinedRow {
    CombinedRow(r.loanId, r.timestamp, r.month, r.year, r.ever30, r.ever90, r.ever180, r.d30, r.d90, r.d180,
      if w.Some? then Some(w.value.delinquency12) else None,
      if w.Some? then Some(w.value.upb12) else None)
  }

  /** `combine_joined_12_mon`: left join on `(loan_id, timestamp_year, timestamp_month)`. */
  function CombineJoined12Mon(joined: seq<JoinedRow>, testdf: seq<WindowRow>): seq<CombinedRow> {
    var ps := JoinPairs(JoinedKeys(joined), WindowKeys(testdf));
    seq(|ps|, p requires 0 <= p < |ps| =>
      AttachWindow(joined[ps[p].left], if ps[p].right.Some? then Some(testdf[ps[p].right.value]) else None))
  }

  /**
   * Combined row `c` is per-month row `r` with the label and least balance of the twelve
   * months of `r`'s loan starting at `r`'s own month in place of its provisional ones.
   */
  predicate CarriesWindow(joined: seq<JoinedRow>, r: JoinedRow, c: CombinedRow) {
    var start := Ordinal(r);
    && c.loanId == r.loanId && c.timestamp == r.timestamp && c.year == r.year && c.month == r.month
    && c.ever30 == r.ever30 && c.ever90 == r.ever90 && c.ever180 == r.ever180
    && c.d30 == r.d30 && c.d90 == r.d90 && c.d180 == r.d180
    && c.upb12.Some? && IsWindowMin(joined, r.loanId, start, c.upb12.value)
    && c.delinquency12 == Some((if Serious(joined, r.loanId, start) then 1 else 0) + (if c.upb12.value == 0.0 then 1 else 0))
  }

  /** The re-join keeps the per-month rows one-to-one and in order, each paired with the window row of its own key. */
  lemma CombineRows(joined: seq<JoinedRow>)
    requires forall i :: 0 <= i < |joined| ==> 1 <= joined[i].month <= Months
    ensures var t := WindowTable(joined); var c := CombineJoined12Mon(joined, t);
      && |c| == |joined|
      && forall i :: 0 <= i < |joined| ==>
           var k := IndexOf(JoinedKeys(joined)[i], WindowKeys(t));
           k.Some? && c[i] == AttachWindow(joined[i], Some(t[k.value]))
  {
    var t := WindowTable(joined);
    WindowTableMeaning(joined);
    JoinPairsOneToOne(JoinedKeys(joined), WindowKeys(t));
  }

  /** A window row of a per-month row's own key, attached to it, carries the window starting at its month. */
  lemma AttachCarries(joined: seq<JoinedRow>, r: JoinedRow, w: WindowRow)
    requires Describes(joined, w)
    requires w.loanId == r.loanId && w.year == r.year && w.month == r.month
    ensures CarriesWindow(joined, r, AttachWindow(r, Some(w)))
  {
    assert w.year * Months + w.month == Ordinal(r);
  }

  /** One row of the re-join carries the window that starts at its own month. */
  lemma CombineRowMeaning(joined: seq<JoinedRow>, i: nat)
    requires forall i :: 0 <= i < |joined| ==> 1 <= joined[i].month <= Months
    requires i < |joined|
    ensures var c := CombineJoined12Mon(joined, WindowTable(joined));
      i < |c| && CarriesWindow(joined, joined[i], c[i])
  {
    var t := WindowTable(joined);
    var c := CombineJoined12Mon(joined, t);
    var k := IndexOf(JoinedKeys(joined)[i], WindowKeys(t));
    assert k.Some? && i < |c| && c[i] == AttachWindow(joined[i], Some(t[k.value])) by {
      CombineRows(joined);
    }
    var w := t[k.value];
    assert WindowKeys(t)[k.value] == JoinedKeys(joined)[i];
    assert Describes(joined, w) by {
      WindowTableMeaning(joined);
    }
    AttachCarries(joined, joined[i], w);
  }

  /**
   * The re-join is one-to-one: every per-loan-month row whose month is in 1..12 is kept
   * once, in order, and receives the label and least balance of the twelve months of its
   * loan starting at its own month; no label is left null.
   */
  lemma CombineOneToOne(joined: seq<JoinedRow>)
    requires forall i :: 0 <= i < |joined| ==> 1 <= joined[i].month <= Months
    ensures var c := CombineJoined12Mon(joined, WindowTable(joined));
      && |c| == |joined|
      && forall i :: 0 <= i < |joined| ==> CarriesWindow(joined, joined[i], c[i])
  {
    CombineRows(joined);
    forall i | 0 <= i < |joined|
      ensures CarriesWindow(joined, joined[i], CombineJoined12Mon(joined, WindowTable(joined))[i])
    {
      CombineRowMeaning(joined, i);
    }
  }
}
