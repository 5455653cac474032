/**
 * The column-major tables of the dataframe library as far as the late stages of the
 * ETL use them: typed columns of nullable cells, `drop_column`, `fillna`, `astype`,
 * `cat.codes` and the left `merge`, and the `null_workaround` policy the script
 * applies before each merge.
 */
module Frames {
  import opened Wrappers
  import opened Relational
  import Dates

  /** The column types the two input schemas and the derived columns use. */
  datatype DType = Int8 | Int16 | Int32 | Int64 | Float32 | Float64 | DateTime | Category | Bool

  predicate IsInteger(t: DType) {
    t == Int8 || t == Int16 || t == Int32 || t == Int64
  }

  predicate IsFloat(t: DType) {
    t == Float32 || t == Float64
  }

  /** The types `null_workaround` fills: `int8` to `int64`, `float32` and `float64`. */
  predicate IsNumeric(t: DType) {
    IsInteger(t) || IsFloat(t)
  }

  /** One cell: null, or a value of one of the column types (a category cell holds its code). */
  datatype Cell = Null | IntV(i: int) | RealV(r: real) | DateV(d: Dates.Date) | CatV(code: int) | BoolV(b: bool)

  datatype Column = Column(name: string, dtype: DType, cells: seq<Cell>)

  function Names(cols: seq<Column>): (ns: seq<string>)
    ensures |ns| == |cols|
    ensures forall k :: 0 <= k < |cols| ==> ns[k] == cols[k].name
  {
    seq(|cols|, k requires 0 <= k < |cols| => cols[k].name)
  }

  /** The number of rows: the length of the first column. */
  function Height(cols: seq<Column>): nat {
    if cols == [] then 0 else |cols[0].cells|
  }

  /** A table: column names are unique (they are the keys of the library's column dictionary) and all columns have the same length. */
  predicate Valid(cols: seq<Column>) {
    Unique(Names(cols)) && forall k :: 0 <= k < |cols| ==> |cols[k].cells| == Height(cols)
  }

  /** No cell of the table is null. */
  predicate NullFree(cols: seq<Column>) {
    forall k, i :: 0 <= k < |cols| && 0 <= i < |cols[k].cells| ==> cols[k].cells[i] != Null
  }

  /** The cell in row `i`, null past the end. */
  function CellAt(c: Column, i: int): Cell {
    if 0 <= i < |c.cells| then c.cells[i] else Null
  }

  /** The column called `name`. */
  function ColumnNamed(cols: seq<Column>, name: string): (c: Column)
    requires name in Names(cols)
    ensures c in cols && c.name == name
  {
    var k := IndexOf(name, Names(cols));
    cols[k.value]
  }

  // ---------------------------------------------------------------- cell-wise operations

  /** `fillna(v)`: nulls become `v`, every other cell is kept. */
  function FillNa(c: Column, v: Cell): (r: Column)
    ensures r.name == c.name && r.dtype == c.dtype && |r.cells| == |c.cells|
    ensures forall i :: 0 <= i < |c.cells| && c.cells[i] == Null ==> r.cells[i] == v
    ensures forall i :: 0 <= i < |c.cells| && c.cells[i] != Null ==> r.cells[i] == c.cells[i]
    ensures v != Null ==> forall i :: 0 <= i < |r.cells| ==> r.cells[i] != Null
  {
    Column(c.name, c.dtype, seq(|c.cells|, i requires 0 <= i < |c.cells| => if c.cells[i] == Null then v else c.cells[i]))
  }

  /** What `fillna(-1)` writes into a column of type `t`. */
  function MinusOne(t: DType): Cell {
    if IsFloat(t) then RealV(-1.0) else IntV(-1)
  }

  /** `cat.codes` (and `astype('int32')` of a category column): every category cell becomes its code; nulls stay null. */
  function CatCodes(c: Column): (r: Column)
    ensures r.name == c.name && r.dtype == Int32 && |r.cells| == |c.cells|
    ensures forall i :: 0 <= i < |c.cells| && c.cells[i].CatV? ==> r.cells[i] == IntV(c.cells[i].code)
    ensures forall i :: 0 <= i < |c.cells| && !c.cells[i].CatV? ==> r.cells[i] == c.cells[i]
    ensures forall i :: 0 <= i < |c.cells| ==> (r.cells[i] == Null <==> c.cells[i] == Null)
  {
    Column(c.name, Int32, seq(|c.cells|, i requires 0 <= i < |c.cells| => if c.cells[i].CatV? then IntV(c.cells[i].code) else c.cells[i]))
  }

  // ---------------------------------------------------------------- null_workaround

  /** What `null_workaround` does to one column, chosen by the column's type before the update. */
  function WorkaroundColumn(c: Column): (r: Column)
    ensures r.name == c.name && |r.cells| == |c.cells| && r.dtype != Category
    ensures IsNumeric(r.dtype) ==> forall i :: 0 <= i < |r.cells| ==> r.cells[i] != Null
  {
    if c.dtype == Category then FillNa(CatCodes(c), IntV(-1))
    else if IsNumeric(c.dtype) then FillNa(c, MinusOne(c.dtype))
    else c
  }

  /** The table `null_workaround` leaves behind. */
  function NullWorkaroundOf(cols: seq<Column>): (r: seq<Column>)
    ensures |r| == |cols|
    ensures Names(r) == Names(cols)
  {
    seq(|cols|, k requires 0 <= k < |cols| => WorkaroundColumn(cols[k]))
  }

  /** No integer or float column holds a null. */
  predicate NumericNullFree(cols: seq<Column>) {
    forall k, i :: 0 <= k < |cols| && IsNumeric(cols[k].dtype) && 0 <= i < |cols[k].cells| ==> cols[k].cells[i] != Null
  }

  /**
   * After `null_workaround` no integer or float column holds a null; a category column
   * has become an `int32` column of its codes with -1 for null; a numeric column keeps
   * its type and its non-null cells and has -1 for null; every other column (dates)
   * is untouched; names, order and length are kept.
   */
  lemma NullWorkaroundMeaning(cols: seq<Column>)
    ensures var r := NullWorkaroundOf(cols);
      && NumericNullFree(r)
      && Names(r) == Names(cols)
      && forall k :: 0 <= k < |cols| ==>
           && |r[k].cells| == |cols[k].cells|
           && (cols[k].dtype == Category ==> r[k].dtype == Int32)
           && (cols[k].dtype == Category ==> forall i :: 0 <= i < |cols[k].cells| ==>
                 r[k].cells[i] == (match cols[k].cells[i] case CatV(code) => IntV(code) case Null => IntV(-1) case other => other))
           && (IsNumeric(cols[k].dtype) ==> r[k].dtype == cols[k].dtype)
           && (IsNumeric(cols[k].dtype) ==> forall i :: 0 <= i < |cols[k].cells| ==>
                 r[k].cells[i] == (if cols[k].cells[i] == Null then MinusOne(cols[k].dtype) else cols[k].cells[i]))
           && (cols[k].dtype != Category && !IsNumeric(cols[k].dtype) ==> r[k] == cols[k])
  {
    var r := NullWorkaroundOf(cols);
    assert Names(r) == Names(cols);
  }

  /** `null_workaround` on a column that it has already processed changes nothing. */
  lemma WorkaroundColumnIdempotent(c: Column)
    ensures WorkaroundColumn(WorkaroundColumn(c)) == WorkaroundColumn(c)
  {
    var w := WorkaroundColumn(c);
    if c.dtype == Category || IsNumeric(c.dtype) {
      assert IsNumeric(w.dtype);
      assert forall i :: 0 <= i < |w.cells| ==> w.cells[i] != Null;
      assert FillNa(w, MinusOne(w.dtype)).cells == w.cells;
    }
  }

  /** Applying `null_workaround` twice equals applying it once. */
  lemma NullWorkaroundIdempotent(cols: seq<Column>)
    ensures NullWorkaroundOf(NullWorkaroundOf(cols)) == NullWorkaroundOf(cols)
  {
    forall k | 0 <= k < |cols|
      ensures WorkaroundColumn(WorkaroundColumn(cols[k])) == WorkaroundColumn(cols[k])
    {
      WorkaroundColumnIdempotent(cols[k]);
    }
  }

  /** `null_workaround` keeps the column names and their order. */
  lemma NullWorkaroundNames(cols: seq<Column>)
    ensures Names(NullWorkaroundOf(cols)) == Names(cols)
  {
    assert forall k :: 0 <= k < |cols| ==> NullWorkaroundOf(cols)[k].name == cols[k].name;
  }

  /** `null_workaround` keeps a table valid: names and lengths do not change. */
  lemma NullWorkaroundValid(cols: seq<Column>)
    requires Valid(cols)
    ensures Valid(NullWorkaroundOf(cols)) && Height(NullWorkaroundOf(cols)) == Height(cols)
  {
    NullWorkaroundMeaning(cols);
  }

  /** `null_workaround` leaves alone a column that is not a category and holds no null. */
  lemma WorkaroundSettled(c: Column)
    requires c.dtype != Category
    requires forall i :: 0 <= i < |c.cells| ==> c.cells[i] != Null
    ensures WorkaroundColumn(c) == c
  {
    if IsNumeric(c.dtype) {
      assert FillNa(c, MinusOne(c.dtype)).cells == c.cells;
    }
  }

  /** In a table of unique names, a column is the one found under its own name. */
  lemma ColumnNamedAt(cols: seq<Column>, k: nat)
    requires Unique(Names(cols)) && k < |cols|
    ensures cols[k].name in Names(cols) && ColumnNamed(cols, cols[k].name) == cols[k]
  {
    IndexOfUnique(Names(cols), k);
  }

  // ---------------------------------------------------------------- dropping columns

  /** The columns whose names are not in `names`, in order. */
  function Without(cols: seq<Column>, names: set<string>): (r: seq<Column>)
    ensures forall c :: c in r <==> c in cols && c.name !in names
    ensures |r| <= |cols|
  {
    FilterMembers(cols, names);
    Filter(cols, names)
  }

  /** The recursion behind `Without`, kept free of quantified facts. */
  function Filter(cols: seq<Column>, names: set<string>): seq<Column> {
    if cols == [] then []
    else
      var init, c := cols[..|cols| - 1], cols[|cols| - 1];
      Filter(init, names) + (if c.name in names then [] else [c])
  }

  lemma {:induction false} FilterMembers(cols: seq<Column>, names: set<string>)
    ensures forall c :: c in Filter(cols, names) <==> c in cols && c.name !in names
    ensures |Filter(cols, names)| <= |cols|
  {
    if cols != [] {
      var init, c := cols[..|cols| - 1], cols[|cols| - 1];
      FilterMembers(init, names);
      assert cols == init + [c];
    }
  }

  /** Dropping names no column has changes nothing. */
  lemma {:induction false} WithoutNone(cols: seq<Column>, names: set<string>)
    requires forall k :: 0 <= k < |cols| ==> cols[k].name !in names
    ensures Without(cols, names) == cols
  {
    if cols != [] {
      var init := cols[..|cols| - 1];
      WithoutNone(init, names);
      assert cols == init + [cols[|cols| - 1]];
    }
  }

  /** Dropping one set of names after another drops their union. */
  lemma {:induction false} WithoutWithout(cols: seq<Column>, a: set<string>, b: set<string>)
    ensures Without(Without(cols, a), b) == Without(cols, a + b)
  {
    if cols != [] {
      var init, c := cols[..|cols| - 1], cols[|cols| - 1];
      WithoutWithout(init, a, b);
      var w := if c.name in a then [] else [c];
      assert Without(init, a) + w == Without(cols, a);
      if c.name in a {
        assert Without(cols, a) == Without(init, a);
      } else {
        var x := Without(init, a) + [c];
        assert x[..|x| - 1] == Without(init, a);
      }
    }
  }

  /** Dropping names from two tables side by side drops them from each. */
  lemma WithoutAppend(a: seq<Column>, b: seq<Column>, names: set<string>)
    ensures Without(a + b, names) == Without(a, names) + Without(b, names)
  {
    FilterAppend(a, b, names);
  }

  lemma {:induction false} FilterAppend(a: seq<Column>, b: seq<Column>, names: set<string>)
    ensures Filter(a + b, names) == Filter(a, names) + Filter(b, names)
  {
    if b == [] {
      assert a + b == a;
    } else {
      var init := b[..|b| - 1];
      var ab := a + b;
      FilterAppend(a, init, names);
      assert ab[..|ab| - 1] == a + init && ab[|ab| - 1] == b[|b| - 1];
    }
  }

  /** Replacing a column that is dropped anyway by another that is dropped too changes nothing. */
  lemma {:induction false} WithoutUpdate(cols: seq<Column>, k: nat, c: Column, names: set<string>)
    requires k < |cols| && cols[k].name in names && c.name in names
    ensures Without(cols[k := c], names) == Without(cols, names)
  {
    var u := cols[k := c];
    var init := cols[..|cols| - 1];
    if k == |cols| - 1 {
      assert u[..|u| - 1] == init;
    } else {
      WithoutUpdate(init, k, c, names);
      assert u[..|u| - 1] == init[k := c];
    }
  }

  /** Dropping columns of unique names leaves unique names. */
  lemma {:induction false} WithoutUnique(cols: seq<Column>, names: set<string>)
    requires Unique(Names(cols))
    ensures Unique(Names(Without(cols, names)))
  {
    if cols != [] {
      var init, c := cols[..|cols| - 1], cols[|cols| - 1];
      assert Names(cols) == Names(init) + [c.name];
      assert Unique(Names(init)) by {
        forall a, b | 0 <= a < |init| && 0 <= b < |init| && Names(init)[a] == Names(init)[b]
          ensures a == b
        {
          assert Names(cols)[a] == Names(cols)[b];
        }
      }
      WithoutUnique(init, names);
      var w := Without(init, names);
      if c.name !in names {
        forall a | 0 <= a < |w|
          ensures Names(w)[a] != c.name
        {
          assert w[a] in init;
          var b :| 0 <= b < |init| && init[b] == w[a];
          assert Names(cols)[b] != Names(cols)[|cols| - 1];
        }
        assert Names(Without(cols, names)) == Names(w) + [c.name];
      }
    }
  }

  /** Which names survive a drop of `names`, without requiring a valid table. */
  lemma WithoutNames(cols: seq<Column>, names: set<string>)
    ensures forall n :: n in Names(Without(cols, names)) <==> n in Names(cols) && n !in names
  {
    var r := Without(cols, names);
    forall n ensures n in Names(r) <==> n in Names(cols) && n !in names {
      if n in Names(cols) && n !in names {
        var k :| 0 <= k < |cols| && Names(cols)[k] == n;
        assert cols[k] in r;
      }
      if n in Names(r) {
        var k :| 0 <= k < |r| && Names(r)[k] == n;
        assert r[k] in cols;
      }
    }
  }

  /** Dropping columns keeps the table valid and leaves exactly the other names. */
  lemma WithoutValid(cols: seq<Column>, names: set<string>)
    requires Valid(cols)
    ensures Valid(Without(cols, names))
    ensures forall n :: n in Names(Without(cols, names)) <==> n in Names(cols) && n !in names
    ensures Without(cols, names) != [] ==> Height(Without(cols, names)) == Height(cols)
  {
    var r := Without(cols, names);
    WithoutUnique(cols, names);
    forall n ensures n in Names(r) <==> n in Names(cols) && n !in names {
      if n in Names(cols) && n !in names {
        var k :| 0 <= k < |cols| && Names(cols)[k] == n;
        assert cols[k] in r;
      }
      if n in Names(r) {
        var k :| 0 <= k < |r| && Names(r)[k] == n;
        assert r[k] in cols;
      }
    }
    forall k | 0 <= k < |r| ensures |r[k].cells| == Height(cols) {
      assert r[k] in cols;
    }
    if r != [] {
      assert r[0] in cols;
    }
  }

  /** A column that is not dropped is found under its name after the drop as before it. */
  lemma ColumnNamedWithout(cols: seq<Column>, names: set<string>, name: string)
    requires Unique(Names(cols)) && name in Names(Without(cols, names))
    ensures name in Names(cols) && ColumnNamed(Without(cols, names), name) == ColumnNamed(cols, name)
  {
    var r := Without(cols, names);
    WithoutUnique(cols, names);
    var k := IndexOf(name, Names(r)).value;
    IndexOfUnique(Names(r), k);
    assert r[k] in cols;
    var a :| 0 <= a < |cols| && cols[a] == r[k];
    IndexOfUnique(Names(cols), a);
  }

  // ---------------------------------------------------------------- assigning a column

  /** `df[c.name] = c`: the column of that name is replaced where it stands, or `c` is appended when there is none. */
  function Assign(cols: seq<Column>, c: Column): (r: seq<Column>)
    ensures c.name in Names(cols) ==> |r| == |cols| && Names(r) == Names(cols)
    ensures c.name !in Names(cols) ==> r == cols + [c]
    ensures forall n :: n in Names(r) <==> n in Names(cols) || n == c.name
    ensures forall k :: 0 <= k < |cols| && cols[k].name != c.name ==> r[k] == cols[k]
  {
    match IndexOf(c.name, Names(cols))
    case Some(k) => cols[k := c]
    case None =>
      assert Names(cols + [c]) == Names(cols) + [c.name];
      cols + [c]
  }

  /** Assigning a column of the table's height keeps the table valid, and the column is then found under its name. */
  lemma AssignValid(cols: seq<Column>, c: Column)
    requires Valid(cols) && (cols == [] || |c.cells| == Height(cols))
    ensures var r := Assign(cols, c);
      && Valid(r) && Height(r) == |c.cells|
      && c.name in Names(r) && ColumnNamed(r, c.name) == c
  {
    var r := Assign(cols, c);
    match IndexOf(c.name, Names(cols))
    case Some(k) =>
      assert r[k] == c;
      if k == 0 { assert Height(r) == |c.cells|; } else { assert r[0] == cols[0]; }
      IndexOfUnique(Names(r), k);
    case None =>
      assert Names(r) == Names(cols) + [c.name];
      assert Unique(Names(r)) by {
        forall a, b | 0 <= a < |r| && 0 <= b < |r| && Names(r)[a] == Names(r)[b] ensures a == b {
          if a < |cols| && b < |cols| {
            assert Names(cols)[a] == Names(cols)[b];
          }
        }
      }
      IndexOfUnique(Names(r), |cols|);
  }

  /** Assigning a column leaves every column of another name where it is found. */
  lemma AssignKeeps(cols: seq<Column>, c: Column, name: string)
    requires Unique(Names(cols)) && name in Names(cols) && name != c.name
    ensures name in Names(Assign(cols, c)) && ColumnNamed(Assign(cols, c), name) == ColumnNamed(cols, name)
  {
    var k := IndexOf(name, Names(cols)).value;
    IndexOfUnique(Names(cols), k);
    var r := Assign(cols, c);
    assert r[k] == cols[k];
    if c.name !in Names(cols) {
      assert Names(r) == Names(cols) + [c.name];
      forall a, b | 0 <= a < |r| && 0 <= b < |r| && Names(r)[a] == Names(r)[b] ensures a == b {
        if a < |cols| && b < |cols| {
          assert Names(cols)[a] == Names(cols)[b];
        }
      }
    }
    IndexOfUnique(Names(r), k);
  }

  /** Dropping a set of names that includes an assigned column's name undoes the assignment. */
  lemma WithoutAssign(cols: seq<Column>, c: Column, names: set<string>)
    requires c.name in names
    ensures Without(Assign(cols, c), names) == Without(cols, names)
  {
    match IndexOf(c.name, Names(cols))
    case Some(k) =>
      WithoutUpdate(cols, k, c, names);
    case None =>
      WithoutAppend(cols, [c], names);
      assert Without([c], names) == [];
  }

  // ---------------------------------------------------------------- merge

  /** The key of row `i`: its cells in the `on` columns. */
  function KeyAt(cols: seq<Column>, on: seq<string>, i: nat): seq<Cell>
    requires forall n :: n in on ==> n in Names(cols)
  {
    seq(|on|, k requires 0 <= k < |on| => CellAt(ColumnNamed(cols, on[k]), i))
  }

  /** In a table of unique names, the key of row `i` on three of its own columns' names is those columns' cells. */
  lemma KeyAtColumns(cols: seq<Column>, on: seq<string>, i: nat, a: nat, b: nat, c: nat)
    requires Unique(Names(cols)) && a < |cols| && b < |cols| && c < |cols|
    requires on == [cols[a].name, cols[b].name, cols[c].name]
    ensures forall n :: n in on ==> n in Names(cols)
    ensures KeyAt(cols, on, i) == [CellAt(cols[a], i), CellAt(cols[b], i), CellAt(cols[c], i)]
  {
    ColumnNamedAt(cols, a);
    ColumnNamedAt(cols, b);
    ColumnNamedAt(cols, c);
  }

  /** The key of row `i` on three names: the cells of the three columns found under them. */
  lemma KeyAtThree(cols: seq<Column>, on: seq<string>, i: nat)
    requires |on| == 3 && forall n :: n in on ==> n in Names(cols)
    ensures KeyAt(cols, on, i)
      == [CellAt(ColumnNamed(cols, on[0]), i), CellAt(ColumnNamed(cols, on[1]), i), CellAt(ColumnNamed(cols, on[2]), i)]
  {
  }

  /** The keys of all rows. */
  function KeysOf(cols: seq<Column>, on: seq<string>): (ks: seq<seq<Cell>>)
    requires forall n :: n in on ==> n in Names(cols)
    ensures |ks| == Height(cols)
    ensures forall i :: 0 <= i < Height(cols) ==> ks[i] == KeyAt(cols, on, i)
  {
    seq(Height(cols), i requires 0 <= i < Height(cols) => KeyAt(cols, on, i))
  }

  /** The key names of a merge, as a set. */
  function KeySet(on: seq<string>): (r: set<string>)
    ensures forall n :: n in r <==> n in on
  {
    set n | n in on
  }

  /** A left-side column of a merge, one cell per output row. */
  function LeftPart(c: Column, ps: seq<Pair>): Column {
    Column(c.name, c.dtype, seq(|ps|, p requires 0 <= p < |ps| => CellAt(c, ps[p].left)))
  }

  /** A right-side column of a merge: the matched row's cell, or null for a left row without a match. */
  function RightPart(c: Column, ps: seq<Pair>): Column {
    Column(c.name, c.dtype, seq(|ps|, p requires 0 <= p < |ps| => if ps[p].right.Some? then CellAt(c, ps[p].right.value) else Null))
  }

  /**
   * `left.merge(right, how='left', on=on)`: the left columns, then the right columns
   * other than the keys, with one row per (left row, matching right row) pair and one
   * row with nulls on the right for a left row without a match. The key columns must
   * exist on both sides.
   */
  function Merge(left: seq<Column>, right: seq<Column>, on: seq<string>): seq<Column>
    requires forall n :: n in on ==> n in Names(left) && n in Names(right)
  {
    var ps := JoinPairs(KeysOf(left, on), KeysOf(right, on));
    var rest := Without(right, KeySet(on));
    seq(|left|, k requires 0 <= k < |left| => LeftPart(left[k], ps))
      + seq(|rest|, k requires 0 <= k < |rest| => RightPart(rest[k], ps))
  }

  /** The columns of a merge: the left ones, then the right ones that are not keys. */
  lemma MergeNames(left: seq<Column>, right: seq<Column>, on: seq<string>)
    requires forall n :: n in on ==> n in Names(left) && n in Names(right)
    ensures Names(Merge(left, right, on)) == Names(left) + Names(Without(right, KeySet(on)))
  {
  }

  /** With unique right keys, the cell a right column gives left row `i`: that of the sole match, or null. */
  function Matched(left: seq<Column>, right: seq<Column>, on: seq<string>, c: Column, i: nat): Cell
    requires forall n :: n in on ==> n in Names(left) && n in Names(right)
  {
    match IndexOf(KeyAt(left, on, i), KeysOf(right, on))
    case None => Null
    case Some(j) => CellAt(c, j)
  }

  /** The columns a one-to-one merge adds, whatever is put in front of them: each gives left row `i` its match's cell, or null. */
  predicate MergedTail(tail: seq<Column>, left: seq<Column>, right: seq<Column>, on: seq<string>, rest: seq<Column>)
    requires forall n :: n in on ==> n in Names(left) && n in Names(right)
  {
    && |tail| == |rest|
    && forall k :: 0 <= k < |rest| ==>
         tail[k].name == rest[k].name && tail[k].dtype == rest[k].dtype
         && |tail[k].cells| == Height(left)
         && forall i :: 0 <= i < Height(left) ==> tail[k].cells[i] == Matched(left, right, on, rest[k], i)
  }

  /**
   * A left merge against unique right keys neither drops nor duplicates left rows: the
   * left columns come out unchanged, and each remaining right column gives every left
   * row the cell of its sole match, or null.
   */
  lemma MergeOneToOne(left: seq<Column>, right: seq<Column>, on: seq<string>)
    requires forall n :: n in on ==> n in Names(left) && n in Names(right)
    requires Valid(left) && Unique(KeysOf(right, on))
    ensures var m, rest := Merge(left, right, on), Without(right, KeySet(on));
      && |left| <= |m|
      && m[..|left|] == left
      && MergedTail(m[|left|..], left, right, on, rest)
  {
    var lk, rk := KeysOf(left, on), KeysOf(right, on);
    var ps := JoinPairs(lk, rk);
    var rest := Without(right, KeySet(on));
    var m := Merge(left, right, on);
    assert |ps| == Height(left) && forall p :: 0 <= p < |ps| ==> ps[p] == Pair(p, IndexOf(lk[p], rk)) by {
      JoinPairsOneToOne(lk, rk);
    }
    forall k | 0 <= k < |left|
      ensures m[k] == left[k]
    {
      assert LeftPart(left[k], ps).cells == left[k].cells;
    }
    var tail := m[|left|..];
    forall k | 0 <= k < |rest|
      ensures tail[k] == RightPart(rest[k], ps)
    {
    }
  }

  /** Dropping only key names after a one-to-one merge drops them from the left columns alone. */
  lemma MergeDropSplit(left: seq<Column>, right: seq<Column>, on: seq<string>, names: set<string>)
    requires forall n :: n in on ==> n in Names(left) && n in Names(right)
    requires Valid(left) && Unique(KeysOf(right, on))
    requires forall n :: n in names ==> n in on
    ensures var m := Merge(left, right, on);
      |left| <= |m| && Without(m, names) == Without(left, names) + m[|left|..]
  {
    var m := Merge(left, right, on);
    MergeNames(left, right, on);
    var tail := m[|left|..];
    assert m == m[..|left|] + tail;
    WithoutAppend(m[..|left|], tail, names);
    forall k | 0 <= k < |tail| ensures tail[k].name !in names {
      assert tail[k].name == Names(m)[|left| + k];
    }
    WithoutNone(tail, names);
    MergeOneToOne(left, right, on);
  }

  /**
   * Dropping, after a one-to-one merge, only names that are keys (so none of the
   * merged-in columns): the left columns without those names, then the merged-in
   * columns, each giving left row `i` the cell of its sole match, or null.
   */
  lemma MergeThenDrop(left: seq<Column>, right: seq<Column>, on: seq<string>, names: set<string>)
    requires forall n :: n in on ==> n in Names(left) && n in Names(right)
    requires Valid(left) && Unique(KeysOf(right, on))
    requires forall n :: n in names ==> n in on
    ensures var out, kept, rest := Without(Merge(left, right, on), names), Without(left, names), Without(right, KeySet(on));
      && |kept| <= |out|
      && out[..|kept|] == kept
      && MergedTail(out[|kept|..], left, right, on, rest)
  {
    var m := Merge(left, right, on);
    MergeDropSplit(left, right, on, names);
    MergeOneToOne(left, right, on);
    var out, kept, rest := Without(m, names), Without(left, names), Without(right, KeySet(on));
    assert MergedTail(m[|left|..], left, right, on, rest);
    assert out[|kept|..] == m[|left|..];
  }

  /** Merged-in column `k` of a one-to-one merge, found under its name in an output of unique names. */
  lemma MergedColumn(out: seq<Column>, kept: seq<Column>, left: seq<Column>, right: seq<Column>, on: seq<string>, rest: seq<Column>, k: nat)
    requires forall n :: n in on ==> n in Names(left) && n in Names(right)
    requires |kept| <= |out| && MergedTail(out[|kept|..], left, right, on, rest) && k < |rest|
    requires Unique(Names(out))
    ensures rest[k].name in Names(out)
    ensures var col := ColumnNamed(out, rest[k].name);
      && col.dtype == rest[k].dtype && |col.cells| == Height(left)
      && forall i :: 0 <= i < Height(left) ==> col.cells[i] == Matched(left, right, on, rest[k], i)
  {
    assert out[|kept| + k] == out[|kept|..][k];
    ColumnNamedAt(out, |kept| + k);
  }

  /**
   * A one-to-one merge (and a drop of key names) that keeps valid left columns and adds
   * columns of other, unique names is a valid table of the left height, holding the
   * names of both parts.
   */
  lemma MergedValid(out: seq<Column>, kept: seq<Column>, left: seq<Column>, right: seq<Column>, on: seq<string>, rest: seq<Column>)
    requires forall n :: n in on ==> n in Names(left) && n in Names(right)
    requires |kept| <= |out| && out[..|kept|] == kept && MergedTail(out[|kept|..], left, right, on, rest)
    requires Valid(kept) && kept != [] && Height(kept) == Height(left)
    requires Unique(Names(rest))
    requires forall n :: n in Names(kept) ==> n !in Names(rest)
    ensures Valid(out) && Height(out) == Height(left)
    ensures forall n :: n in Names(out) <==> n in Names(kept) || n in Names(rest)
  {
    var tail := out[|kept|..];
    assert out == kept + tail;
    assert Names(tail) == Names(rest);
    assert Names(out) == Names(kept) + Names(rest);
    forall a, b | 0 <= a < |kept| && 0 <= b < |rest| ensures Names(kept)[a] != Names(rest)[b] {
      assert Names(kept)[a] in Names(kept);
    }
    UniqueAppend(Names(kept), Names(rest));
    forall k | 0 <= k < |out| ensures |out[k].cells| == Height(left) {
      if k >= |kept| {
        assert out[k] == tail[k - |kept|];
      }
    }
  }

  /**
   * A one-to-one merge of two tables that share only key names, followed by a drop of
   * key names other than the first key, is a valid table of the left height, holding
   * the left names not dropped and the right names that are not keys.
   */
  lemma MergeThenDropValid(left: seq<Column>, right: seq<Column>, on: seq<string>, names: set<string>)
    requires forall n :: n in on ==> n in Names(left) && n in Names(right)
    requires Valid(left) && Valid(right) && Unique(KeysOf(right, on))
    requires forall n :: n in names ==> n in on
    requires forall n :: n in Names(left) && n in Names(right) ==> n in on
    requires on != [] && on[0] !in names
    ensures var out := Without(Merge(left, right, on), names);
      && Valid(out) && Height(out) == Height(left)
      && forall n :: n in Names(out) <==> (n in Names(left) && n !in names) || (n in Names(right) && n !in on)
  {
    MergeThenDrop(left, right, on, names);
    var out, kept, rest := Without(Merge(left, right, on), names), Without(left, names), Without(right, KeySet(on));
    WithoutValid(left, names);
    WithoutValid(right, KeySet(on));
    assert on[0] in Names(kept);
    MergedValid(out, kept, left, right, on, rest);
  }

  /**
   * After such a merge and drop, a right column other than the keys is found under its
   * own name and type, giving left row `i` the cell of its sole match, or null.
   */
  lemma MergeThenDropColumn(left: seq<Column>, right: seq<Column>, on: seq<string>, names: set<string>, name: string)
    requires forall n :: n in on ==> n in Names(left) && n in Names(right)
    requires Valid(left) && Unique(KeysOf(right, on))
    requires forall n :: n in names ==> n in on
    requires Unique(Names(Without(Merge(left, right, on), names)))
    requires name in Names(right) && name !in on
    ensures var out := Without(Merge(left, right, on), names);
      && name in Names(out)
      && var col, src := ColumnNamed(out, name), ColumnNamed(right, name);
         && col.dtype == src.dtype && |col.cells| == Height(left)
         && forall i :: 0 <= i < Height(left) ==> col.cells[i] == Matched(left, right, on, src, i)
  {
    MergeThenDrop(left, right, on, names);
    var out, kept, rest := Without(Merge(left, right, on), names), Without(left, names), Without(right, KeySet(on));
    var src := ColumnNamed(right, name);
    assert src in rest;
    var k :| 0 <= k < |rest| && rest[k] == src;
    MergedColumn(out, kept, left, right, on, rest, k);
  }

  // ---------------------------------------------------------------- the mutable table

  /** A table the script updates in place: `df[name] = ...` and `drop_column` change its columns. */
  class DataFrame {
    var columns: seq<Column>

    constructor (columns: seq<Column>)
      ensures this.columns == columns
    {
      this.columns := columns;
    }

    /** `df[name] = c` for the existing column at position `k`. */
    method SetColumn(k: nat, c: Column)
      requires k < |columns|
      modifies this
      ensures columns == old(columns)[k := c]
    {
      columns := columns[k := c];
    }

    /** `drop_column(name)`: fails (the library raises) when there is no such column. */
    method DropColumn(name: string) returns (ok: bool)
      modifies this
      ensures ok <==> name in Names(old(columns))
      ensures columns == if ok then Without(old(columns), {name}) else old(columns)
    {
      ok := name in Names(columns);
      if ok {
        columns := Without(columns, {name});
      }
    }
  }

  /** `null_workaround(df)`: rewrites the caller's table column by column and returns it. */
  method NullWorkaround(df: DataFrame) returns (r: DataFrame)
    modifies df
    ensures r == df && df.columns == NullWorkaroundOf(old(df.columns))
  {
    var k := 0;
    while k < |df.columns|
      invariant 0 <= k <= |df.columns| == |old(df.columns)|
      invariant forall j :: 0 <= j < k ==> df.columns[j] == WorkaroundColumn(old(df.columns)[j])
      invariant forall j :: k <= j < |df.columns| ==> df.columns[j] == old(df.columns)[j]
    {
      var c := df.columns[k];
      if c.dtype == Category {
        df.SetColumn(k, FillNa(CatCodes(c), IntV(-1)));
      }
      if IsNumeric(c.dtype) {
        df.SetColumn(k, FillNa(df.columns[k], MinusOne(c.dtype)));
      }
      k := k + 1;
    }
    r := df;
  }
}
