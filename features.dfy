/**
 * The per-loan feature stages of the mortgage ETL: ever-delinquent flags
 * (`create_ever_features`), onset dates (`create_delinq_features`), their merge
 * (`join_ever_delinq_features`) and the per-loan-month table (`create_joined_df`).
 * Input rows carry the four performance columns these stages read.
 */
module Features {
  import opened Wrappers
  import opened Dates
  import opened Relational

  /** One performance row: `loan_id`, `monthly_reporting_period`, `current_loan_delinquency_status` (nullable int32), `current_actual_upb` (nullable float64). */
  datatype PerfRow = PerfRow(loanId: int, period: Date, status: Option<int>, upb: Option<real>)

  function LoanIds(rows: seq<PerfRow>): (ks: seq<int>)
    ensures |ks| == |rows|
    ensures forall i :: 0 <= i < |rows| ==> ks[i] == rows[i].loanId
  {
    seq(|rows|, i requires 0 <= i < |rows| => rows[i].loanId)
  }

  // ---------------------------------------------------------------- reference predicates

  /** Some row of `loan` has a non-null status. */
  predicate HasStatus(rows: seq<PerfRow>, loan: int) {
    exists i :: 0 <= i < |rows| && rows[i].loanId == loan && rows[i].status.Some?
  }

  /** Some row of `loan` has a status at or above `threshold`. */
  predicate Reaches(rows: seq<PerfRow>, loan: int, threshold: int) {
    exists i :: 0 <= i < |rows| && rows[i].loanId == loan && rows[i].status.Some? && rows[i].status.value >= threshold
  }

  /** `d` is the earliest reporting period of `loan` among its rows at or above `threshold`. */
  predicate IsEarliest(rows: seq<PerfRow>, loan: int, threshold: int, d: Date) {
    && (exists i :: 0 <= i < |rows| && rows[i].loanId == loan && rows[i].status.Some? && rows[i].status.value >= threshold && rows[i].period == d)
    && (forall i :: 0 <= i < |rows| && rows[i].loanId == loan && rows[i].status.Some? && rows[i].status.value >= threshold ==> Le(d, rows[i].period))
  }

  /** The onset date a loan should carry for `threshold`: its earliest crossing, or the epoch when it never crossed. */
  predicate OnsetIs(rows: seq<PerfRow>, loan: int, threshold: int, d: Date) {
    if Reaches(rows, loan, threshold) then IsEarliest(rows, loan, threshold, d) else d == Epoch
  }

  /** The ever flag a loan should carry: null without any status, else 1 exactly when it reached `threshold`. */
  function EverFlag(rows: seq<PerfRow>, loan: int, threshold: int): Option<int> {
    if !HasStatus(rows, loan) then None
    else if Reaches(rows, loan, threshold) then Some(1)
    else Some(0)
  }

  // ---------------------------------------------------------------- ever flags

  /** `groupby('loan_id').max()` over the status column: nulls are skipped and an all-null group stays null. */
  function MaxStatus(rows: seq<PerfRow>, loan: int): (m: Option<int>)
    ensures m.None? <==> !HasStatus(rows, loan)
    ensures m.Some? ==> exists i :: 0 <= i < |rows| && rows[i].loanId == loan && rows[i].status == m
    ensures m.Some? ==> forall i :: 0 <= i < |rows| && rows[i].loanId == loan && rows[i].status.Some? ==> rows[i].status.value <= m.value
  {
    if rows == [] then None
    else
      var init, r := rows[..|rows| - 1], rows[|rows| - 1];
      assert forall i :: 0 <= i < |init| ==> init[i] == rows[i];
      var m' := MaxStatus(init, loan);
      if r.loanId != loan || r.status.None? then m'
      else if m'.None? || m'.value < r.status.value then r.status
      else m'
  }

  /** `(max >= threshold).astype('int8')`, where a null maximum compares to null. */
  function Flag(m: Option<int>, threshold: int): Option<int> {
    match m
    case None => None
    case Some(v) => Some(if v >= threshold then 1 else 0)
  }

  datatype EverRow = EverRow(loanId: int, ever30: Option<int>, ever90: Option<int>, ever180: Option<int>)

  function EverKeys(ever: seq<EverRow>): (ks: seq<int>)
    ensures |ks| == |ever|
    ensures forall i :: 0 <= i < |ever| ==> ks[i] == ever[i].loanId
  {
    seq(|ever|, i requires 0 <= i < |ever| => ever[i].loanId)
  }

  /** `create_ever_features`: one row per loan with the three thresholded maxima. */
  function CreateEverFeatures(rows: seq<PerfRow>): (ever: seq<EverRow>)
    ensures Unique(EverKeys(ever))
    ensures forall i :: 0 <= i < |ever| ==> ever[i].loanId in LoanIds(rows)
    ensures forall i :: 0 <= i < |rows| ==> rows[i].loanId in EverKeys(ever)
  {
    var loans := Distinct(LoanIds(rows));
    var ever := seq(|loans|, i requires 0 <= i < |loans| => EverOf(rows, loans[i]));
    assert EverKeys(ever) == loans;
    ever
  }

  /** The ever row of one loan group. */
  function EverOf(rows: seq<PerfRow>, loan: int): (e: EverRow)
    ensures e.loanId == loan
  {
    var m := MaxStatus(rows, loan);
    EverRow(loan, Flag(m, 1), Flag(m, 3), Flag(m, 6))
  }

  /** A thresholded maximum is 1 exactly when some status reaches the threshold. */
  lemma FlagOfMax(rows: seq<PerfRow>, loan: int, threshold: int)
    ensures Flag(MaxStatus(rows, loan), threshold) == EverFlag(rows, loan, threshold)
  {
    var m := MaxStatus(rows, loan);
    if m.Some? {
      if m.value >= threshold {
        var i :| 0 <= i < |rows| && rows[i].loanId == loan && rows[i].status == m;
        assert Reaches(rows, loan, threshold);
      }
    }
  }

  /** Each ever row carries the flags of its loan: 1 when some status reached 1, 3 or 6, else 0, and null when every status was null. */
  lemma EverFeaturesMeaning(rows: seq<PerfRow>, i: nat)
    requires i < |CreateEverFeatures(rows)|
    ensures var e := CreateEverFeatures(rows)[i];
      && e.ever30 == EverFlag(rows, e.loanId, 1)
      && e.ever90 == EverFlag(rows, e.loanId, 3)
      && e.ever180 == EverFlag(rows, e.loanId, 6)
  {
    var e := CreateEverFeatures(rows)[i];
    FlagOfMax(rows, e.loanId, 1);
    FlagOfMax(rows, e.loanId, 3);
    FlagOfMax(rows, e.loanId, 6);
  }

  /** The flags are 0 or 1 when present, and severity is monotone: ever_180 = 1 implies ever_90 = 1 implies ever_30 = 1. */
  lemma EverFlagsMonotone(rows: seq<PerfRow>, i: nat)
    requires i < |CreateEverFeatures(rows)|
    ensures var e := CreateEverFeatures(rows)[i];
      && (e.ever30.Some? ==> e.ever30.value in {0, 1})
      && (e.ever90.Some? ==> e.ever90.value in {0, 1})
      && (e.ever180.Some? ==> e.ever180.value in {0, 1})
      && (e.ever180 == Some(1) ==> e.ever90 == Some(1))
      && (e.ever90 == Some(1) ==> e.ever30 == Some(1))
      && (e.ever30.None? <==> e.ever90.None?) && (e.ever90.None? <==> e.ever180.None?)
  {
    EverFeaturesMeaning(rows, i);
  }

  // ---------------------------------------------------------------- onset dates

  /** `query('current_loan_delinquency_status >= threshold')`: null statuses fail the test; order is kept. */
  function Reached(rows: seq<PerfRow>, threshold: int): (f: seq<PerfRow>)
    ensures forall r :: r in f <==> r in rows && r.status.Some? && r.status.value >= threshold
  {
    if rows == [] then []
    else
      var init, r := rows[..|rows| - 1], rows[|rows| - 1];
      assert rows == init + [r];
      Reached(init, threshold) + (if r.status.Some? && r.status.value >= threshold then [r] else [])
  }

  /** `groupby('loan_id').min()` over the reporting period; null when the loan has no row. */
  function MinPeriod(rows: seq<PerfRow>, loan: int): (d: Option<Date>)
    ensures d.None? <==> forall i :: 0 <= i < |rows| ==> rows[i].loanId != loan
    ensures d.Some? ==> exists i :: 0 <= i < |rows| && rows[i].loanId == loan && rows[i].period == d.value
    ensures d.Some? ==> forall i :: 0 <= i < |rows| && rows[i].loanId == loan ==> Le(d.value, rows[i].period)
  {
    if rows == [] then None
    else
      var init, r := rows[..|rows| - 1], rows[|rows| - 1];
      assert forall i :: 0 <= i < |init| ==> init[i] == rows[i];
      var d' := MinPeriod(init, loan);
      if r.loanId != loan then d'
      else if d'.None? then Some(r.period)
      else Some(Min(d'.value, r.period))
  }

  /** One row of `delinq_30`, `delinq_90` or `delinq_180`. */
  datatype Onset = Onset(loanId: int, date: Date)

  function OnsetKeys(t: seq<Onset>): (ks: seq<int>)
    ensures |ks| == |t|
    ensures forall i :: 0 <= i < |t| ==> ks[i] == t[i].loanId
  {
    seq(|t|, i requires 0 <= i < |t| => t[i].loanId)
  }

  /** The earliest period of a loan among the rows that passed the filter is its earliest crossing. */
  lemma MinPeriodOfReached(rows: seq<PerfRow>, threshold: int, loan: int)
    ensures var d := MinPeriod(Reached(rows, threshold), loan);
      && (d.None? <==> !Reaches(rows, loan, threshold))
      && (d.Some? ==> IsEarliest(rows, loan, threshold, d.value))
  {
    var f := Reached(rows, threshold);
    var d := MinPeriod(f, loan);
    if d.Some? {
      var k :| 0 <= k < |f| && f[k].loanId == loan && f[k].period == d.value;
      assert f[k] in f;
      forall i | 0 <= i < |rows| && rows[i].loanId == loan && rows[i].status.Some? && rows[i].status.value >= threshold
        ensures Le(d.value, rows[i].period)
      {
        assert rows[i] in f;
        var j :| 0 <= j < |f| && f[j] == rows[i];
      }
    }
    if Reaches(rows, loan, threshold) {
      var i :| 0 <= i < |rows| && rows[i].loanId == loan && rows[i].status.Some? && rows[i].status.value >= threshold;
      assert rows[i] in f;
    }
  }

  /** The table of one threshold: a row per loan that reached it, with its earliest crossing. */
  function OnsetTable(rows: seq<PerfRow>, threshold: int): (t: seq<Onset>)
    ensures Unique(OnsetKeys(t))
    ensures forall j :: 0 <= j < |t| ==> Reaches(rows, t[j].loanId, threshold) && IsEarliest(rows, t[j].loanId, threshold, t[j].date)
    ensures forall loan :: Reaches(rows, loan, threshold) ==> loan in OnsetKeys(t)
  {
    var f := Reached(rows, threshold);
    var loans := Distinct(LoanIds(f));
    var t := seq(|loans|, j requires 0 <= j < |loans| => OnsetOf(rows, threshold, loans[j]));
    assert OnsetKeys(t) == loans;
    ReachedListed(rows, threshold);
    t
  }

  /** Every loan that reaches the threshold is one of the groups of the filtered rows. */
  lemma ReachedListed(rows: seq<PerfRow>, threshold: int)
    ensures forall loan :: Reaches(rows, loan, threshold) ==> loan in Distinct(LoanIds(Reached(rows, threshold)))
  {
    var f := Reached(rows, threshold);
    forall loan | Reaches(rows, loan, threshold) ensures loan in Distinct(LoanIds(f)) {
      MinPeriodOfReached(rows, threshold, loan);
      var k :| 0 <= k < |f| && f[k].loanId == loan;
      assert LoanIds(f)[k] == loan;
    }
  }

  /** The onset row of one loan group. */
  function OnsetOf(rows: seq<PerfRow>, threshold: int, loan: int): (o: Onset)
    requires loan in LoanIds(Reached(rows, threshold))
    ensures o.loanId == loan
    ensures Reaches(rows, loan, threshold) && IsEarliest(rows, loan, threshold, o.date)
  {
    MinPeriodOfReached(rows, threshold, loan);
    var f := Reached(rows, threshold);
    var d := MinPeriod(f, loan);
    assert d.Some? by {
      var k :| 0 <= k < |f| && LoanIds(f)[k] == loan;
    }
    Onset(loan, d.value)
  }

  /** A row of `delinq_30.merge(delinq_90, how='left')` after the epoch fill of `delinquency_90`. */
  datatype Delinq3090 = Delinq3090(loanId: int, d30: Date, d90: Date)

  /** A row of `delinq_merge`: the three onset dates of one loan. */
  datatype DelinqRow = DelinqRow(loanId: int, d30: Date, d90: Date, d180: Date)

  function Delinq3090Keys(t: seq<Delinq3090>): (ks: seq<int>)
    ensures |ks| == |t|
    ensures forall i :: 0 <= i < |t| ==> ks[i] == t[i].loanId
  {
    seq(|t|, i requires 0 <= i < |t| => t[i].loanId)
  }

  function DelinqKeys(t: seq<DelinqRow>): (ks: seq<int>)
    ensures |ks| == |t|
    ensures forall i :: 0 <= i < |t| ==> ks[i] == t[i].loanId
  {
    seq(|t|, i requires 0 <= i < |t| => t[i].loanId)
  }

  /** Left join of the 30-day table with the 90-day table on `loan_id`; unmatched onsets become the epoch. */
  function Merge90(t30: seq<Onset>, t90: seq<Onset>): seq<Delinq3090> {
    var ps := JoinPairs(OnsetKeys(t30), OnsetKeys(t90));
    seq(|ps|, p requires 0 <= p < |ps| =>
      var a := t30[ps[p].left];
      Delinq3090(a.loanId, a.date, if ps[p].right.Some? then t90[ps[p].right.value].date else Epoch))
  }

  /** Left join of the merged table with the 180-day table on `loan_id`; unmatched onsets become the epoch. */
  function Merge180(m: seq<Delinq3090>, t180: seq<Onset>): seq<DelinqRow> {
    var ps := JoinPairs(Delinq3090Keys(m), OnsetKeys(t180));
    seq(|ps|, p requires 0 <= p < |ps| =>
      var a := m[ps[p].left];
      DelinqRow(a.loanId, a.d30, a.d90, if ps[p].right.Some? then t180[ps[p].right.value].date else Epoch))
  }

  /** `create_delinq_features`. */
  function CreateDelinqFeatures(rows: seq<PerfRow>): seq<DelinqRow> {
    Merge180(Merge90(OnsetTable(rows, 1), OnsetTable(rows, 3)), OnsetTable(rows, 6))
  }

  /** A loan that reached a higher threshold reached every lower one. */
  lemma ReachesDownward(rows: seq<PerfRow>, loan: int, lower: int, higher: int)
    requires lower <= higher && Reaches(rows, loan, higher)
    ensures Reaches(rows, loan, lower)
  {
    var i :| 0 <= i < |rows| && rows[i].loanId == loan && rows[i].status.Some? && rows[i].status.value >= higher;
  }

  /** The date a left join against onset table `t` attaches to `loan`, the epoch when unmatched. */
  function LookupDate(t: seq<Onset>, loan: int): Date {
    match IndexOf(loan, OnsetKeys(t))
    case None => Epoch
    case Some(k) => t[k].date
  }

  /** Looking a loan up in the table of a threshold yields the onset that loan should carry. */
  lemma OnsetLookup(rows: seq<PerfRow>, threshold: int, loan: int)
    ensures OnsetIs(rows, loan, threshold, LookupDate(OnsetTable(rows, threshold), loan))
  {
    var t := OnsetTable(rows, threshold);
    if Reaches(rows, loan, threshold) {
      assert loan in OnsetKeys(t);
    }
  }

  /** The first left join keeps the 30-day rows one-to-one and attaches the 90-day lookup. */
  lemma Merge90Rows(t30: seq<Onset>, t90: seq<Onset>)
    requires Unique(OnsetKeys(t90))
    ensures |Merge90(t30, t90)| == |t30|
    ensures forall j :: 0 <= j < |t30| ==>
      Merge90(t30, t90)[j] == Delinq3090(t30[j].loanId, t30[j].date, LookupDate(t90, t30[j].loanId))
  {
    JoinPairsOneToOne(OnsetKeys(t30), OnsetKeys(t90));
  }

  /** The second left join keeps the merged rows one-to-one and attaches the 180-day lookup. */
  lemma Merge180Rows(m: seq<Delinq3090>, t180: seq<Onset>)
    requires Unique(OnsetKeys(t180))
    ensures |Merge180(m, t180)| == |m|
    ensures forall j :: 0 <= j < |m| ==>
      Merge180(m, t180)[j] == DelinqRow(m[j].loanId, m[j].d30, m[j].d90, LookupDate(t180, m[j].loanId))
  {
    JoinPairsOneToOne(Delinq3090Keys(m), OnsetKeys(t180));
  }

  /** `delinq_merge` is the 30-day table, one-to-one, with the 90- and 180-day onsets looked up. */
  lemma DelinqFeaturesRows(rows: seq<PerfRow>)
    ensures var t30 := OnsetTable(rows, 1);
      && |CreateDelinqFeatures(rows)| == |t30|
      && forall j :: 0 <= j < |t30| ==>
           CreateDelinqFeatures(rows)[j] ==
           DelinqRow(t30[j].loanId, t30[j].date, LookupDate(OnsetTable(rows, 3), t30[j].loanId), LookupDate(OnsetTable(rows, 6), t30[j].loanId))
  {
    var t30, t90, t180 := OnsetTable(rows, 1), OnsetTable(rows, 3), OnsetTable(rows, 6);
    Merge90Rows(t30, t90);
    var m := Merge90(t30, t90);
    Merge180Rows(m, t180);
  }

  /**
   * `delinq_merge` has one row per loan that ever reached status 1 and no other, and
   * each of its three dates is that loan's onset for 1, 3 and 6, or the epoch when the
   * loan never reached the threshold. Since every loan of the 90- and 180-day tables
   * also reached 1, the two left joins on the 30-day base drop none of them.
   */
  lemma DelinqFeaturesMeaning(rows: seq<PerfRow>)
    ensures var d := CreateDelinqFeatures(rows);
      && DelinqKeys(d) == OnsetKeys(OnsetTable(rows, 1))
      && Unique(DelinqKeys(d))
      && (forall loan :: Reaches(rows, loan, 1) ==> loan in DelinqKeys(d))
      && (forall j :: 0 <= j < |d| ==> Reaches(rows, d[j].loanId, 1))
  {
    DelinqFeaturesRows(rows);
    var d := CreateDelinqFeatures(rows);
    assert DelinqKeys(d) == OnsetKeys(OnsetTable(rows, 1));
  }

  /** Each row of `delinq_merge` carries its loan's onset for 1, 3 and 6, the epoch standing for one never reached. */
  lemma DelinqRowMeaning(rows: seq<PerfRow>, j: nat)
    requires j < |CreateDelinqFeatures(rows)|
    ensures var r := CreateDelinqFeatures(rows)[j];
      && OnsetIs(rows, r.loanId, 1, r.d30)
      && OnsetIs(rows, r.loanId, 3, r.d90)
      && OnsetIs(rows, r.loanId, 6, r.d180)
  {
    DelinqFeaturesRows(rows);
    var r := CreateDelinqFeatures(rows)[j];
    OnsetLookup(rows, 3, r.loanId);
    OnsetLookup(rows, 6, r.loanId);
  }

  /** Where the later thresholds were reached, the onsets are ordered: onset_30 <= onset_90 <= onset_180. */
  lemma OnsetsOrdered(rows: seq<PerfRow>, loan: int, d30: Date, d90: Date, d180: Date)
    requires OnsetIs(rows, loan, 1, d30) && OnsetIs(rows, loan, 3, d90) && OnsetIs(rows, loan, 6, d180)
    ensures Reaches(rows, loan, 3) ==> Le(d30, d90)
    ensures Reaches(rows, loan, 6) ==> Le(d90, d180)
  {
    if Reaches(rows, loan, 3) {
      ReachesDownward(rows, loan, 1, 3);
      var i :| 0 <= i < |rows| && rows[i].loanId == loan && rows[i].status.Some? && rows[i].status.value >= 3 && rows[i].period == d90;
    }
    if Reaches(rows, loan, 6) {
      ReachesDownward(rows, loan, 3, 6);
      var i :| 0 <= i < |rows| && rows[i].loanId == loan && rows[i].status.Some? && rows[i].status.value >= 6 && rows[i].period == d180;
    }
  }

  // ---------------------------------------------------------------- per-loan features

  /** A row of `everdf` after `join_ever_delinq_features`. */
  datatype LoanFeatures = LoanFeatures(
    loanId: int,
    ever30: Option<int>, ever90: Option<int>, ever180: Option<int>,
    d30: Date, d90: Date, d180: Date)

  function FeatureKeys(t: seq<LoanFeatures>): (ks: seq<int>)
    ensures |ks| == |t|
    ensures forall i :: 0 <= i < |t| ==> ks[i] == t[i].loanId
  {
    seq(|t|, i requires 0 <= i < |t| => t[i].loanId)
  }

  /** `join_ever_delinq_features`: left join of the ever flags with the onsets; unmatched onsets become the epoch. */
  function JoinEverDelinqFeatures(ever: seq<EverRow>, delinq: seq<DelinqRow>): seq<LoanFeatures> {
    var ps := JoinPairs(EverKeys(ever), DelinqKeys(delinq));
    seq(|ps|, p requires 0 <= p < |ps| =>
      var e := ever[ps[p].left];
      match ps[p].right
      case None => LoanFeatures(e.loanId, e.ever30, e.ever90, e.ever180, Epoch, Epoch, Epoch)
      case Some(j) => LoanFeatures(e.loanId, e.ever30, e.ever90, e.ever180, delinq[j].d30, delinq[j].d90, delinq[j].d180))
  }

  /** The per-loan table of the pipeline. */
  function LoanTable(rows: seq<PerfRow>): seq<LoanFeatures> {
    JoinEverDelinqFeatures(CreateEverFeatures(rows), CreateDelinqFeatures(rows))
  }

  /** The onsets a left join against `delinq_merge` attaches to `loan`, the epoch when unmatched. */
  function LookupDelinq(d: seq<DelinqRow>, loan: int): (Date, Date, Date) {
    match IndexOf(loan, DelinqKeys(d))
    case None => (Epoch, Epoch, Epoch)
    case Some(k) => (d[k].d30, d[k].d90, d[k].d180)
  }

  /** Looking a loan up in `delinq_merge` yields the three onsets it should carry. */
  lemma LookupDelinqMeaning(rows: seq<PerfRow>, loan: int)
    ensures var (a, b, c) := LookupDelinq(CreateDelinqFeatures(rows), loan);
      OnsetIs(rows, loan, 1, a) && OnsetIs(rows, loan, 3, b) && OnsetIs(rows, loan, 6, c)
  {
    var d := CreateDelinqFeatures(rows);
    DelinqFeaturesMeaning(rows);
    match IndexOf(loan, DelinqKeys(d))
    case Some(k) => {
      DelinqRowMeaning(rows, k);
    }
    case None => {
      if Reaches(rows, loan, 3) { ReachesDownward(rows, loan, 1, 3); }
      if Reaches(rows, loan, 6) { ReachesDownward(rows, loan, 1, 6); }
    }
  }

  /** The per-loan table is `everdf`, one-to-one and in order, with the onsets looked up. */
  lemma LoanTableRows(rows: seq<PerfRow>)
    ensures var ever := CreateEverFeatures(rows);
      && |LoanTable(rows)| == |ever|
      && forall j :: 0 <= j < |ever| ==>
           var (a, b, c) := LookupDelinq(CreateDelinqFeatures(rows), ever[j].loanId);
           LoanTable(rows)[j] == LoanFeatures(ever[j].loanId, ever[j].ever30, ever[j].ever90, ever[j].ever180, a, b, c)
  {
    var ever, d := CreateEverFeatures(rows), CreateDelinqFeatures(rows);
    DelinqFeaturesMeaning(rows);
    JoinPairsOneToOne(EverKeys(ever), DelinqKeys(d));
  }

  /** The per-loan table has exactly one row per distinct loan of the input, keyed like `everdf`. */
  lemma LoanTableKeys(rows: seq<PerfRow>)
    ensures FeatureKeys(LoanTable(rows)) == EverKeys(CreateEverFeatures(rows))
    ensures Unique(FeatureKeys(LoanTable(rows)))
    ensures forall i :: 0 <= i < |rows| ==> rows[i].loanId in FeatureKeys(LoanTable(rows))
  {
    LoanTableRows(rows);
    assert FeatureKeys(LoanTable(rows)) == EverKeys(CreateEverFeatures(rows));
  }

  /** Each per-loan row carries its loan's ever flags and its three onset dates, the epoch standing for a threshold never reached. */
  lemma LoanTableMeaning(rows: seq<PerfRow>, j: nat)
    requires j < |LoanTable(rows)|
    ensures var f := LoanTable(rows)[j];
      && f.ever30 == EverFlag(rows, f.loanId, 1)
      && f.ever90 == EverFlag(rows, f.loanId, 3)
      && f.ever180 == EverFlag(rows, f.loanId, 6)
      && OnsetIs(rows, f.loanId, 1, f.d30)
      && OnsetIs(rows, f.loanId, 3, f.d90)
      && OnsetIs(rows, f.loanId, 6, f.d180)
  {
    LoanTableRows(rows);
    EverFeaturesMeaning(rows, j);
    LookupDelinqMeaning(rows, LoanTable(rows)[j].loanId);
  }

  /** A loan that never reached status 1 carries the epoch for all three onsets, not -1. */
  lemma NeverDelinquentGetsEpoch(rows: seq<PerfRow>, j: nat)
    requires j < |LoanTable(rows)|
    requires !Reaches(rows, LoanTable(rows)[j].loanId, 1)
    ensures var f := LoanTable(rows)[j]; f.d30 == Epoch && f.d90 == Epoch && f.d180 == Epoch
  {
    LoanTableMeaning(rows, j);
    var loan := LoanTable(rows)[j].loanId;
    if Reaches(rows, loan, 3) { ReachesDownward(rows, loan, 1, 3); }
    if Reaches(rows, loan, 6) { ReachesDownward(rows, loan, 1, 6); }
  }

  // ---------------------------------------------------------------- per-loan-month table

  /** Fill of a null `upb_12`: a balance larger than any real one. */
  const UnknownUpb: real := 999999999.0

  /** Fill of a null `delinquency_12` and of the per-loan columns of an unmatched row. */
  const Missing: int := -1

  /** A row of `joined_df` as `create_joined_df` returns it. */
  datatype JoinedRow = JoinedRow(
    loanId: int, timestamp: Date, month: int, year: int,
    delinquency12: int, upb12: real,
    ever30: int, ever90: int, ever180: int,
    d30: Date, d90: Date, d180: Date)

  /** One output row of `create_joined_df`: the projected performance row with the per-loan features, or their -1 fills. */
  function AttachFeatures(r: PerfRow, f: Option<LoanFeatures>): JoinedRow {
    var base := JoinedRow(r.loanId, r.period, r.period.month, r.period.year,
      r.status.GetOr(Missing), r.upb.GetOr(UnknownUpb), Missing, Missing, Missing, MinusOneMs, MinusOneMs, MinusOneMs);
    match f
    case None => base
    case Some(g) =>
      base.(ever30 := g.ever30.GetOr(Missing), ever90 := g.ever90.GetOr(Missing), ever180 := g.ever180.GetOr(Missing),
            d30 := g.d30, d90 := g.d90, d180 := g.d180)
  }

  /** `create_joined_df`: the per-month projection left-joined with the per-loan features on `loan_id`. */
  function CreateJoinedDf(rows: seq<PerfRow>, features: seq<LoanFeatures>): seq<JoinedRow> {
    var ps := JoinPairs(LoanIds(rows), FeatureKeys(features));
    seq(|ps|, p requires 0 <= p < |ps| =>
      AttachFeatures(rows[ps[p].left], if ps[p].right.Some? then Some(features[ps[p].right.value]) else None))
  }

  /** The per-loan-month table of the pipeline. */
  function JoinedTable(rows: seq<PerfRow>): seq<JoinedRow> {
    CreateJoinedDf(rows, LoanTable(rows))
  }

  /** The ever code a per-loan-month row should carry: -1 when the loan has no status at all, else its flag. */
  function EverCode(rows: seq<PerfRow>, loan: int, threshold: int): int {
    EverFlag(rows, loan, threshold).GetOr(Missing)
  }

  /** `create_joined_df` returns exactly one row per performance row, in order, and every row finds its loan's features. */
  lemma JoinedTableRows(rows: seq<PerfRow>)
    ensures |JoinedTable(rows)| == |rows|
    ensures forall i :: 0 <= i < |rows| ==>
      var k := IndexOf(rows[i].loanId, FeatureKeys(LoanTable(rows)));
      k.Some? && JoinedTable(rows)[i] == AttachFeatures(rows[i], Some(LoanTable(rows)[k.value]))
  {
    LoanTableKeys(rows);
    JoinPairsOneToOne(LoanIds(rows), FeatureKeys(LoanTable(rows)));
  }

  /**
   * Each per-loan-month row is its performance row with a null status filled by -1 and
   * a null balance by 999999999, the loan's ever codes (-1 only for a loan without any
   * status) and its true onset dates; the -1 fill of the onset columns never applies.
   */
  lemma JoinedRowMeaning(rows: seq<PerfRow>, i: nat)
    requires i < |rows|
    ensures i < |JoinedTable(rows)|
    ensures var j := JoinedTable(rows)[i]; var r := rows[i];
      && j.loanId == r.loanId && j.timestamp == r.period
      && j.year == r.period.year && j.month == r.period.month
      && j.delinquency12 == r.status.GetOr(Missing)
      && j.upb12 == r.upb.GetOr(UnknownUpb)
      && j.ever30 == EverCode(rows, r.loanId, 1)
      && j.ever90 == EverCode(rows, r.loanId, 3)
      && j.ever180 == EverCode(rows, r.loanId, 6)
      && OnsetIs(rows, r.loanId, 1, j.d30)
      && OnsetIs(rows, r.loanId, 3, j.d90)
      && OnsetIs(rows, r.loanId, 6, j.d180)
  {
    JoinedTableRows(rows);
    var k := IndexOf(rows[i].loanId, FeatureKeys(LoanTable(rows)));
    LoanTableMeaning(rows, k.value);
  }

  /**
   * The ever code -1 appears exactly for loans whose every status is null; a loan that
   * has a status but never reached 1 carries ever_30 = 0 together with the epoch as
   * `delinquency_30`, not -1.
   */
  lemma EverCodeCases(rows: seq<PerfRow>, i: nat)
    requires i < |rows|
    ensures i < |JoinedTable(rows)|
    ensures var j := JoinedTable(rows)[i];
      && (j.ever30 == Missing <==> !HasStatus(rows, j.loanId))
      && j.ever30 in {-1, 0, 1} && j.ever90 in {-1, 0, 1} && j.ever180 in {-1, 0, 1}
      && (j.ever30 == 0 ==> j.d30 == Epoch && j.d90 == Epoch && j.d180 == Epoch)
  {
    JoinedRowMeaning(rows, i);
    var loan := rows[i].loanId;
    if Reaches(rows, loan, 3) { ReachesDownward(rows, loan, 1, 3); }
    if Reaches(rows, loan, 6) { ReachesDownward(rows, loan, 1, 6); }
  }
}
