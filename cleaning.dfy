/**
 * `last_mile_cleaning`: the final table loses its identifier, date and leakage
 * columns, every remaining column is cast to `float32` (a category column through
 * its codes), the label `delinquency_12` becomes 1 for a positive value and 0
 * otherwise, and every remaining null becomes -1.
 */
module Cleaning {
  import opened Wrappers
  import opened Relational
  import opened Frames
  import Dates

  /** The columns `last_mile_cleaning` drops, in the order it drops them. */
  const DropList: seq<string> := [
    "loan_id", "orig_date", "first_pay_date", "seller_name",
    "monthly_reporting_period", "last_paid_installment_date", "maturity_date", "ever_30", "ever_90", "ever_180",
    "delinquency_30", "delinquency_90", "delinquency_180", "upb_12",
    "zero_balance_effective_date", "foreclosed_after", "disposition_date", "timestamp"
  ]

  /** The label column. */
  const LabelName: string := "delinquency_12"

  /** `astype('float32')` of one cell: a date becomes its `datetime64[ms]` count, a boolean 0 or 1; nulls stay null. */
  function ToFloat32(c: Cell): (r: Cell)
    ensures r.Null? <==> c.Null?
    ensures r.Null? || r.RealV?
    ensures c.IntV? ==> r == RealV(c.i as real)
    ensures c.RealV? ==> r == c
    ensures c.DateV? ==> r == RealV(Dates.EpochMillis(c.d) as real)
    ensures c.CatV? ==> r == RealV(c.code as real)
    ensures c.BoolV? ==> r == RealV(if c.b then 1.0 else 0.0)
  {
    match c
    case Null => Null
    case IntV(i) => RealV(i as real)
    case RealV(x) => RealV(x)
    case DateV(d) => RealV(Dates.EpochMillis(d) as real)
    case CatV(code) => RealV(code as real)
    case BoolV(b) => RealV(if b then 1.0 else 0.0)
  }

  /**
   * One pass of the recasting loop: a category column is replaced by its codes, then
   * every column is cast to `float32`. Going through the codes gives each cell the
   * same value as casting it directly.
   */
  function CastColumn(c: Column): (r: Column)
    ensures r.name == c.name && r.dtype == Float32 && |r.cells| == |c.cells|
    ensures forall i :: 0 <= i < |c.cells| ==> r.cells[i] == ToFloat32(c.cells[i])
  {
    var coded := if c.dtype == Category then CatCodes(c) else c;
    Column(c.name, Float32, seq(|coded.cells|, i requires 0 <= i < |coded.cells| => ToFloat32(coded.cells[i])))
  }

  /** `(df['delinquency_12'] > 0).fillna(False).astype('int32')` on one cell of the `float32` label. */
  function BinariseCell(c: Cell): Cell {
    IntV(if c.RealV? && c.r > 0.0 then 1 else 0)
  }

  function BinariseColumn(c: Column): (r: Column)
    ensures r.name == c.name && r.dtype == Int32 && |r.cells| == |c.cells|
  {
    Column(c.name, Int32, seq(|c.cells|, i requires 0 <= i < |c.cells| => BinariseCell(c.cells[i])))
  }

  /** The names of `DropList[..n]`. */
  function Dropped(n: nat): set<string>
    requires n <= |DropList|
  {
    set k | 0 <= k < n :: DropList[k]
  }

  /** The table the recasting loop leaves: every column `float32`, every cell its cast. */
  function CastAll(cols: seq<Column>): (r: seq<Column>)
    ensures |r| == |cols| && Names(r) == Names(cols)
    ensures forall k :: 0 <= k < |cols| ==> r[k] == CastColumn(cols[k])
    ensures forall k :: 0 <= k < |cols| ==> r[k].dtype == Float32 && |r[k].cells| == |cols[k].cells|
    ensures forall k, i :: 0 <= k < |cols| && 0 <= i < |cols[k].cells| ==> r[k].cells[i] == ToFloat32(cols[k].cells[i])
  {
    seq(|cols|, k requires 0 <= k < |cols| => CastColumn(cols[k]))
  }

  /** The table the final `fillna(-1)` loop leaves: types kept, no null, every null replaced by its column's -1. */
  function FillAll(cols: seq<Column>): (r: seq<Column>)
    ensures |r| == |cols| && Names(r) == Names(cols)
    ensures forall k :: 0 <= k < |cols| ==> r[k] == FillNa(cols[k], MinusOne(cols[k].dtype))
    ensures forall k :: 0 <= k < |cols| ==> r[k].dtype == cols[k].dtype && |r[k].cells| == |cols[k].cells|
    ensures NullFree(r)
    ensures forall k, i :: 0 <= k < |cols| && 0 <= i < |cols[k].cells| && cols[k].cells[i] == Null ==>
      r[k].cells[i] == MinusOne(cols[k].dtype)
    ensures forall k, i :: 0 <= k < |cols| && 0 <= i < |cols[k].cells| && cols[k].cells[i] != Null ==>
      r[k].cells[i] == cols[k].cells[i]
  {
    seq(|cols|, k requires 0 <= k < |cols| => FillNa(cols[k], MinusOne(cols[k].dtype)))
  }

  /** What follows the drop loop: the recasting loop, the label, and the fill loop; `None` when the label is missing. */
  function CastAndLabel(kept: seq<Column>): Option<seq<Column>> {
    var cast := CastAll(kept);
    match IndexOf(LabelName, Names(cast))
    case None => None
    case Some(j) => Some(FillAll(cast[j := BinariseColumn(cast[j])]))
  }

  /** The table `last_mile_cleaning` produces, or `None` where the library raises: a drop-list column or the label is missing. */
  function LastMileOf(cols: seq<Column>): Option<seq<Column>> {
    if exists k :: 0 <= k < |DropList| && DropList[k] !in Names(cols) then None
    else CastAndLabel(Without(cols, Dropped(|DropList|)))
  }

  /** The names of the drop list are distinct, so each `drop_column` finds a column not dropped before. */
  lemma DropListUnique()
    ensures Unique(DropList)
  {
    var a, b, c := DropList[..7], DropList[7..13], DropList[13..];
    DropGroupsUnique(a, b, c);
    DropGroupsApart(a, b);
    DropGroupsApart(a, c);
    DropGroupsApart(b, c);
    UniqueAppend(a, b);
    forall i, j | 0 <= i < |a + b| && 0 <= j < |c| ensures (a + b)[i] != c[j] {
      if i < |a| {
        assert (a + b)[i] == a[i];
      } else {
        assert (a + b)[i] == b[i - |a|];
      }
    }
    UniqueAppend(a + b, c);
    assert a + b + c == DropList;
  }

  /** The three groups of the drop list (identifiers and dates, delinquency features, leakage columns) are each free of repeats. */
  lemma DropGroupsUnique(a: seq<string>, b: seq<string>, c: seq<string>)
    requires a == DropList[..7] && b == DropList[7..13] && c == DropList[13..]
    ensures Unique(a) && Unique(b) && Unique(c)
  {
  }

  /** Two different groups of the drop list share no name. */
  lemma DropGroupsApart(x: seq<string>, y: seq<string>)
    requires || (x == DropList[..7] && y == DropList[7..13])
             || (x == DropList[..7] && y == DropList[13..])
             || (x == DropList[7..13] && y == DropList[13..])
    ensures forall i, j :: 0 <= i < |x| && 0 <= j < |y| ==> x[i] != y[j]
  {
  }

  /** The names of a list, as a set. */
  function SetOf(ns: seq<string>): (r: set<string>)
    ensures forall x :: x in r <==> x in ns
  {
    if ns == [] then {} else SetOf(ns[..|ns| - 1]) + {ns[|ns| - 1]}
  }

  /** The first `n` names are all columns of `start` and pairwise different. */
  predicate DropsSoFar(start: seq<Column>, names: seq<string>, n: nat)
    requires n <= |names|
  {
    (forall k :: 0 <= k < n ==> names[k] in Names(start)) &&
    (forall j, k :: 0 <= j < k < n ==> names[j] != names[k])
  }

  /** The set of one more name. */
  lemma SetOfSnoc(names: seq<string>, n: nat)
    requires n < |names|
    ensures SetOf(names[..n + 1]) == SetOf(names[..n]) + {names[n]}
  {
    assert names[..n + 1][..n] == names[..n];
  }

  /** The first `n + 1` names are present and distinct when the first `n` are, the next is present, and no earlier one equals it. */
  lemma DropsSoFarStep(start: seq<Column>, names: seq<string>, n: nat)
    requires n < |names| && DropsSoFar(start, names, n)
    ensures DropsSoFar(start, names, n + 1) <==> names[n] in Names(start) && names[n] !in SetOf(names[..n])
  {
    assert names[n] in SetOf(names[..n]) <==> exists j :: 0 <= j < n && names[j] == names[n] by {
      assert forall j :: 0 <= j < n ==> names[..n][j] == names[j];
    }
  }

  /** One step of the drop loop: the next name is present exactly when the table had it and no earlier name was the same. */
  lemma DropStep(start: seq<Column>, names: seq<string>, n: nat)
    requires n < |names| && DropsSoFar(start, names, n)
    ensures names[n] in Names(Without(start, SetOf(names[..n]))) <==> DropsSoFar(start, names, n + 1)
    ensures Without(Without(start, SetOf(names[..n])), {names[n]}) == Without(start, SetOf(names[..n + 1]))
  {
    var dropped := SetOf(names[..n]);
    WithoutNames(start, dropped);
    DropsSoFarStep(start, names, n);
    SetOfSnoc(names, n);
    WithoutWithout(start, dropped, {names[n]});
  }

  /** When the loop has run through every name, they were all present and distinct. */
  lemma DropsAll(start: seq<Column>, names: seq<string>)
    requires DropsSoFar(start, names, |names|)
    ensures (forall k :: 0 <= k < |names| ==> names[k] in Names(start)) && Unique(names)
  {
  }

  /** A name missing from the table, or repeated, stops the loop early. */
  lemma DropsFail(start: seq<Column>, names: seq<string>, n: nat)
    requires n < |names| && !DropsSoFar(start, names, n + 1)
    ensures !((forall k :: 0 <= k < |names| ==> names[k] in Names(start)) && Unique(names))
  {
    if forall k :: 0 <= k < |names| ==> names[k] in Names(start) {
      var j, k :| 0 <= j < k < n + 1 && names[j] == names[k];
      assert !Unique(names);
    }
  }

  /** `drop_column` for each name of `names` in turn, stopping at the first one that is missing. */
  method DropColumns(df: DataFrame, names: seq<string>) returns (ok: bool)
    modifies df
    ensures ok <==> (forall k :: 0 <= k < |names| ==> names[k] in Names(old(df.columns))) && Unique(names)
    ensures ok ==> df.columns == Without(old(df.columns), SetOf(names))
  {
    ghost var start := df.columns;
    var n := 0;
    WithoutNone(start, SetOf([]));
    while n < |names|
      invariant 0 <= n <= |names|
      invariant DropsSoFar(start, names, n)
      invariant df.columns == Without(start, SetOf(names[..n]))
    {
      DropStep(start, names, n);
      var present := df.DropColumn(names[n]);
      if !present {
        DropsFail(start, names, n);
        return false;
      }
      n := n + 1;
    }
    assert names[..n] == names;
    DropsAll(start, names);
    ok := true;
  }

  /** The drop loop of `last_mile_cleaning`. */
  method DropListed(df: DataFrame) returns (ok: bool)
    modifies df
    ensures ok <==> forall k :: 0 <= k < |DropList| ==> DropList[k] in Names(old(df.columns))
    ensures ok ==> df.columns == Without(old(df.columns), Dropped(|DropList|))
  {
    DropListUnique();
    ok := DropColumns(df, DropList);
    assert SetOf(DropList) == Dropped(|DropList|);
  }

  /** The recasting loop: each column, a category one through its codes, becomes `float32`. */
  method RecastColumns(df: DataFrame)
    modifies df
    ensures df.columns == CastAll(old(df.columns))
  {
    var k := 0;
    while k < |df.columns|
      invariant 0 <= k <= |df.columns| == |old(df.columns)|
      invariant forall j :: 0 <= j < k ==> df.columns[j] == CastColumn(old(df.columns)[j])
      invariant forall j :: k <= j < |df.columns| ==> df.columns[j] == old(df.columns)[j]
    {
      df.SetColumn(k, CastColumn(df.columns[k]));
      k := k + 1;
    }
  }

  /** The final loop: `fillna(-1)` on every column. */
  method FillColumns(df: DataFrame)
    modifies df
    ensures df.columns == FillAll(old(df.columns))
  {
    var k := 0;
    while k < |df.columns|
      invariant 0 <= k <= |df.columns| == |old(df.columns)|
      invariant forall j :: 0 <= j < k ==> df.columns[j] == FillNa(old(df.columns)[j], MinusOne(old(df.columns)[j].dtype))
      invariant forall j :: k <= j < |df.columns| ==> df.columns[j] == old(df.columns)[j]
    {
      df.SetColumn(k, FillNa(df.columns[k], MinusOne(df.columns[k].dtype)));
      k := k + 1;
    }
  }

  /** `last_mile_cleaning(df)`: the drop loop, the recasting loop, the label, and the final fill loop, all in place on `df`. */
  method LastMileCleaning(df: DataFrame) returns (ok: bool)
    modifies df
    ensures ok <==> LastMileOf(old(df.columns)).Some?
    ensures ok ==> df.columns == LastMileOf(old(df.columns)).value
  {
    ok := DropListed(df);
    if !ok {
      return;
    }
    RecastColumns(df);
    var labelAt := IndexOf(LabelName, Names(df.columns));
    if labelAt.None? {
      return false;
    }
    df.SetColumn(labelAt.value, BinariseColumn(df.columns[labelAt.value]));
    FillColumns(df);
  }

  /** `last_mile_cleaning` fails exactly when a column of the drop list or the label is missing. */
  lemma LastMileFails(cols: seq<Column>)
    ensures LastMileOf(cols).None? <==>
      (exists k :: 0 <= k < |DropList| && DropList[k] !in Names(cols)) || LabelName !in Names(cols)
  {
    WithoutNames(cols, Dropped(|DropList|));
    assert LabelName !in Dropped(|DropList|);
  }

  /**
   * After the drop loop, the remaining steps keep a valid table valid with the same
   * names; no cell is null afterwards, and every column is `float32` except the label,
   * which is `int32`.
   */
  lemma CastAndLabelShape(kept: seq<Column>)
    requires Valid(kept) && CastAndLabel(kept).Some?
    ensures var out := CastAndLabel(kept).value;
      && Valid(out) && Names(out) == Names(kept)
      && NullFree(out)
      && (forall k :: 0 <= k < |out| && out[k].name != LabelName ==> out[k].dtype == Float32)
      && (forall k :: 0 <= k < |out| && out[k].name == LabelName ==> out[k].dtype == Int32)
  {
    var cast := CastAll(kept);
    var j := IndexOf(LabelName, Names(cast)).value;
    var labelled := cast[j := BinariseColumn(cast[j])];
    assert Names(labelled) == Names(kept);
    IndexOfUnique(Names(cast), j);
    var out := FillAll(labelled);
    forall k | 0 <= k < |out| ensures |out[k].cells| == Height(out) {
      assert |out[k].cells| == |kept[k].cells|;
    }
    forall k | 0 <= k < |out|
      ensures forall i :: 0 <= i < |out[k].cells| ==> out[k].cells[i] != Null
    {
      assert out[k] == FillNa(labelled[k], MinusOne(labelled[k].dtype));
    }
  }

  /** After the drop loop, the remaining steps turn the label into 1 where it was positive and 0 elsewhere. */
  lemma CastAndLabelLabel(kept: seq<Column>)
    requires Valid(kept) && CastAndLabel(kept).Some?
    ensures var out := CastAndLabel(kept).value;
      && LabelName in Names(out) && LabelName in Names(kept)
      && var l, c := ColumnNamed(out, LabelName), ColumnNamed(kept, LabelName);
         |l.cells| == |c.cells| &&
         forall i :: 0 <= i < |c.cells| ==> l.cells[i] == IntV(if Positive(c.cells[i]) then 1 else 0)
  {
    var cast := CastAll(kept);
    var j := IndexOf(LabelName, Names(cast)).value;
    var labelled := cast[j := BinariseColumn(cast[j])];
    assert Names(labelled) == Names(kept);
    var out := FillAll(labelled);
    IndexOfUnique(Names(out), j);
    IndexOfUnique(Names(kept), j);
    var c := kept[j];
    forall i | 0 <= i < |c.cells|
      ensures out[j].cells[i] == IntV(if Positive(c.cells[i]) then 1 else 0)
    {
      PositiveCast(c, i);
    }
  }

  /**
   * After the drop loop, every column but the label holds, row for row, the `float32`
   * cast of its cell (a category cell its code), or -1 where the cell was null.
   */
  lemma CastAndLabelFeatures(kept: seq<Column>)
    requires CastAndLabel(kept).Some?
    ensures var out := CastAndLabel(kept).value;
      forall n :: n in Names(out) && n != LabelName ==>
        && n in Names(kept)
        && var o, c := ColumnNamed(out, n), ColumnNamed(kept, n);
           && |o.cells| == |c.cells|
           && forall i :: 0 <= i < |c.cells| ==> o.cells[i] == FeatureCell(c.cells[i])
  {
    var cast := CastAll(kept);
    var j := IndexOf(LabelName, Names(cast)).value;
    var labelled := cast[j := BinariseColumn(cast[j])];
    assert Names(labelled) == Names(kept);
    var out := FillAll(labelled);
    forall n | n in Names(out) && n != LabelName
      ensures n in Names(kept)
      ensures var o, c := ColumnNamed(out, n), ColumnNamed(kept, n);
        |o.cells| == |c.cells| && forall i :: 0 <= i < |c.cells| ==> o.cells[i] == FeatureCell(c.cells[i])
    {
      var k := IndexOf(n, Names(out)).value;
      assert ColumnNamed(out, n) == out[k] && ColumnNamed(kept, n) == kept[k];
      assert labelled[k] == cast[k];
    }
  }

  /** What the cleaned table holds for a feature cell: its `float32` cast, or -1 for null. */
  function FeatureCell(c: Cell): (r: Cell)
    ensures r != Null
  {
    if c == Null then RealV(-1.0) else ToFloat32(c)
  }

  /** When `last_mile_cleaning` succeeds, the columns left are exactly those not on the drop list, and the table is valid. */
  lemma LastMileNames(cols: seq<Column>)
    requires Valid(cols) && LastMileOf(cols).Some?
    ensures var out := LastMileOf(cols).value;
      && Valid(out)
      && (forall n :: n in Names(out) <==> n in Names(cols) && n !in DropList)
  {
    var kept := Without(cols, Dropped(|DropList|));
    WithoutValid(cols, Dropped(|DropList|));
    CastAndLabelShape(kept);
    assert forall n :: n in DropList <==> n in Dropped(|DropList|);
  }

  /**
   * When `last_mile_cleaning` succeeds, no cell is null and every column is `float32`
   * except the label, which is `int32`.
   */
  lemma LastMileTypes(cols: seq<Column>)
    requires Valid(cols) && LastMileOf(cols).Some?
    ensures var out := LastMileOf(cols).value;
      && NullFree(out)
      && (forall k :: 0 <= k < |out| && out[k].name != LabelName ==> out[k].dtype == Float32)
      && (forall k :: 0 <= k < |out| && out[k].name == LabelName ==> out[k].dtype == Int32)
  {
    WithoutValid(cols, Dropped(|DropList|));
    CastAndLabelShape(Without(cols, Dropped(|DropList|)));
  }

  /**
   * When `last_mile_cleaning` succeeds, the label is 1 in every row where it was
   * positive and 0 elsewhere, a null label counting as 0.
   */
  lemma LastMileLabel(cols: seq<Column>)
    requires Valid(cols) && LastMileOf(cols).Some?
    ensures var out := LastMileOf(cols).value;
      && LabelName in Names(out) && LabelName in Names(cols)
      && var l, c := ColumnNamed(out, LabelName), ColumnNamed(cols, LabelName);
         |l.cells| == |c.cells| &&
         forall i :: 0 <= i < |c.cells| ==> l.cells[i] == IntV(if Positive(c.cells[i]) then 1 else 0)
  {
    var kept := Without(cols, Dropped(|DropList|));
    WithoutValid(cols, Dropped(|DropList|));
    CastAndLabelLabel(kept);
    ColumnNamedWithout(cols, Dropped(|DropList|), LabelName);
  }

  /**
   * When `last_mile_cleaning` succeeds, every column but the label holds, row for row,
   * the `float32` cast of the incoming cell (a category cell its code), or -1 where the
   * incoming cell was null.
   */
  lemma LastMileFeatures(cols: seq<Column>)
    requires Valid(cols) && LastMileOf(cols).Some?
    ensures var out := LastMileOf(cols).value;
      forall n :: n in Names(out) && n != LabelName ==>
        && n in Names(cols)
        && var o, c := ColumnNamed(out, n), ColumnNamed(cols, n);
           && |o.cells| == |c.cells|
           && forall i :: 0 <= i < |c.cells| ==> o.cells[i] == FeatureCell(c.cells[i])
  {
    var kept := Without(cols, Dropped(|DropList|));
    CastAndLabelFeatures(kept);
    forall n | n in Names(CastAndLabel(kept).value) && n != LabelName
      ensures ColumnNamed(kept, n) == ColumnNamed(cols, n)
    {
      ColumnNamedWithout(cols, Dropped(|DropList|), n);
    }
  }

  /** A label cell counts as positive when its `float32` cast is above zero. */
  predicate Positive(c: Cell) {
    var f := ToFloat32(c);
    f.RealV? && f.r > 0.0
  }

  /** The cast of the label column keeps, cell by cell, whether the label is positive. */
  lemma PositiveCast(c: Column, i: nat)
    requires i < |c.cells|
    ensures BinariseCell(CastColumn(c).cells[i]) == IntV(if Positive(c.cells[i]) then 1 else 0)
  {
    var coded := if c.dtype == Category then CatCodes(c) else c;
    assert CastColumn(c).cells[i] == ToFloat32(coded.cells[i]);
    assert ToFloat32(coded.cells[i]) == ToFloat32(c.cells[i]);
  }
}
