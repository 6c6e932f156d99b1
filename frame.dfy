/**
  The slice of pandas DataFrame behaviour that node.py relies on.

  A table keeps its column labels in order (pandas allows a label to occur
  more than once, so they are a sequence, not a set) and its rows; each row
  keeps its index label, because `drop` by label and `dropna` keep labels and
  only `reset_index` renumbers them. `Null` stands for pandas' missing value
  (NaN, NaT or None).
*/
module Frame {

  datatype Option<+T> = None | Some(value: T)

  /** A cell of a table once the spreadsheet has been read. */
  datatype Value = Null | Text(s: string) | Number(x: real) | Time(t: int)

  datatype Row = Row(index: int, cells: seq<Value>)

  datatype Table = Table(columns: seq<string>, rows: seq<Row>)

  /** The exceptions the modelled pandas calls raise. */
  datatype Error =
    | MissingColumns(names: seq<string>)   // KeyError: column labels not in the frame
    | DuplicateColumn(name: string)        // a label that must name one column names several
    | MissingLabels(labels: seq<int>)      // KeyError: row labels not in the index

  datatype Result<+T> = Ok(value: T) | Err(error: Error) {
    predicate IsFailure() { Err? }

    function PropagateFailure<U>(): Result<U>
      requires Err?
    {
      Err(error)
    }

    function Extract(): T
      requires Ok?
    {
      value
    }
  }

  /** Every row has one cell per column. */
  predicate Fits(rows: seq<Row>, width: nat) {
    forall r | r in rows :: |r.cells| == width
  }

  predicate Wf(t: Table) {
    Fits(t.rows, |t.columns|)
  }

  /** The index a freshly read frame has: 0, 1, 2, ... */
  predicate DefaultIndex(rows: seq<Row>) {
    forall i | 0 <= i < |rows| :: rows[i].index == i
  }

  predicate StrictlyIncreasing(rows: seq<Row>) {
    forall i, j | 0 <= i < j < |rows| :: rows[i].index < rows[j].index
  }

  predicate HasLabel(rows: seq<Row>, l: int) {
    exists r | r in rows :: r.index == l
  }

  /** Under the default index, the labels are exactly 0 .. n-1. */
  lemma {:induction false} DefaultLabels(rows: seq<Row>, l: int)
    requires DefaultIndex(rows)
    ensures HasLabel(rows, l) <==> 0 <= l < |rows|
  {
    if 0 <= l < |rows| {
      assert rows[l] in rows;
    }
    if HasLabel(rows, l) {
      var x :| x in rows && x.index == l;
      var i :| 0 <= i < |rows| && rows[i] == x;
    }
  }

  // ---------------------------------------------------------------------------
  // Column labels
  // ---------------------------------------------------------------------------

  /** How many columns carry the label `name`. */
  function Count(cols: seq<string>, name: string): (n: nat)
    ensures n == 0 <==> name !in cols
    ensures n <= |cols|
  {
    if cols == [] then 0
    else (if cols[0] == name then 1 else 0) + Count(cols[1..], name)
  }

  /** Position of the first column labelled `name`. */
  function IndexOf(cols: seq<string>, name: string): (i: nat)
    requires name in cols
    ensures i < |cols| && cols[i] == name && name !in cols[..i]
  {
    if cols[0] == name then 0 else 1 + IndexOf(cols[1..], name)
  }

  /** A label that occurs once occurs at IndexOf and nowhere else. */
  lemma {:induction false} OnlyOccurrence(cols: seq<string>, name: string, i: int)
    requires Count(cols, name) == 1
    requires 0 <= i < |cols| && cols[i] == name
    ensures i == IndexOf(cols, name)
  {
    if cols[0] == name {
      if i > 0 {
        assert false;
      }
    } else {
      assert cols[1..][i - 1] == name;
      OnlyOccurrence(cols[1..], name, i - 1);
    }
  }

  /** The value of a row under a column label, as `row[name]` reads it. */
  function Cell(cols: seq<string>, cells: seq<Value>, name: string): Value
    requires |cells| == |cols| && name in cols
  {
    cells[IndexOf(cols, name)]
  }

  // ---------------------------------------------------------------------------
  // df.rename(columns=...)
  // ---------------------------------------------------------------------------

  function RenameLabel(renames: map<string, string>, c: string): string {
    if c in renames then renames[c] else c
  }

  /** Labels the mapping does not mention are left as they are. */
  function RenameColumns(cols: seq<string>, renames: map<string, string>): (r: seq<string>)
    ensures |r| == |cols|
    ensures forall i | 0 <= i < |cols| :: r[i] == RenameLabel(renames, cols[i])
  {
    seq(|cols|, i requires 0 <= i < |cols| => RenameLabel(renames, cols[i]))
  }

  /** A label is present after renaming exactly when some column is renamed to it. */
  lemma {:induction false} RenamedLabels(cols: seq<string>, renames: map<string, string>)
    ensures forall c :: c in RenameColumns(cols, renames) <==> exists i | 0 <= i < |cols| :: RenameLabel(renames, cols[i]) == c
  {
    var r := RenameColumns(cols, renames);
    forall c ensures c in r <==> exists i | 0 <= i < |cols| :: RenameLabel(renames, cols[i]) == c {
      if c in r {
        var i :| 0 <= i < |r| && r[i] == c;
        assert RenameLabel(renames, cols[i]) == c;
      }
      if exists i | 0 <= i < |cols| :: RenameLabel(renames, cols[i]) == c {
        var i :| 0 <= i < |cols| && RenameLabel(renames, cols[i]) == c;
        assert r[i] == c;
      }
    }
  }

  function Rename(t: Table, renames: map<string, string>): (r: Table)
    ensures r.rows == t.rows && |r.columns| == |t.columns|
    ensures forall i | 0 <= i < |t.columns| :: r.columns[i] == RenameLabel(renames, t.columns[i])
    ensures Wf(t) ==> Wf(r)
  {
    Table(RenameColumns(t.columns, renames), t.rows)
  }

  /**
    When `src` is the only label that the mapping turns into `dst`, the first
    `dst` column after renaming sits where the first `src` column was.
  */
  lemma {:induction false} RenameIndex(cols: seq<string>, renames: map<string, string>, src: string, dst: string)
    requires src in cols && RenameLabel(renames, src) == dst
    requires forall i | 0 <= i < |cols| && RenameLabel(renames, cols[i]) == dst :: cols[i] == src
    ensures dst in RenameColumns(cols, renames)
    ensures IndexOf(RenameColumns(cols, renames), dst) == IndexOf(cols, src)
  {
    var r := RenameColumns(cols, renames);
    var i := IndexOf(cols, src);
    assert r[i] == dst;
    var k := IndexOf(r, dst);
    if k < i {
      assert false;
    }
    if k > i {
      assert false;
    }
  }

  // ---------------------------------------------------------------------------
  // df.drop(columns=..., errors='ignore')
  // ---------------------------------------------------------------------------

  /** The labels that survive dropping `names`, in their original order. */
  function KeepColumns(cols: seq<string>, names: set<string>): (r: seq<string>)
    ensures |r| <= |cols|
    ensures forall c :: c in r <==> c in cols && c !in names
  {
    if cols == [] then []
    else (if cols[0] in names then [] else [cols[0]]) + KeepColumns(cols[1..], names)
  }

  /** Dropping a label the frame lacks changes nothing. */
  lemma {:induction false} KeepAbsent(cols: seq<string>, name: string)
    requires name !in cols
    ensures KeepColumns(cols, {name}) == cols
  {
    if cols != [] {
      assert cols[0] != name;
      KeepAbsent(cols[1..], name);
      assert [cols[0]] + cols[1..] == cols;
    }
  }

  /** Dropping a label that occurs once removes exactly that position. */
  lemma {:induction false} KeepAllBut(cols: seq<string>, name: string)
    requires Count(cols, name) == 1
    ensures KeepColumns(cols, {name}) == cols[..IndexOf(cols, name)] + cols[IndexOf(cols, name) + 1..]
    decreases |cols|, 1
  {
    if cols[0] == name {
      assert name !in cols[1..];
      KeepAbsent(cols[1..], name);
      assert KeepColumns(cols, {name}) == KeepColumns(cols[1..], {name});
    } else {
      KeepAllButLater(cols, name);
    }
  }

  lemma {:induction false} KeepAllButLater(cols: seq<string>, name: string)
    requires Count(cols, name) == 1 && cols[0] != name
    ensures KeepColumns(cols, {name}) == cols[..IndexOf(cols, name)] + cols[IndexOf(cols, name) + 1..]
    decreases |cols|, 0
  {
    var p := IndexOf(cols, name);
    var rest := KeepColumns(cols[1..], {name});
    assert rest == cols[1..p] + cols[p + 1..] by {
      assert IndexOf(cols[1..], name) == p - 1;
      KeepAllBut(cols[1..], name);
      assert cols[1..][..p - 1] == cols[1..p];
      assert cols[1..][p..] == cols[p + 1..];
    }
    calc {
      KeepColumns(cols, {name});
      [cols[0]] + rest;
      ([cols[0]] + cols[1..p]) + cols[p + 1..];
      { assert [cols[0]] + cols[1..p] == cols[..p]; }
      cols[..p] + cols[p + 1..];
    }
  }

  /** The cells of one row under the surviving labels. */
  function KeepCells(cols: seq<string>, cells: seq<Value>, names: set<string>): (r: seq<Value>)
    requires |cells| == |cols|
    ensures |r| == |KeepColumns(cols, names)|
  {
    if cols == [] then []
    else (if cols[0] in names then [] else [cells[0]]) + KeepCells(cols[1..], cells[1..], names)
  }

  /** Dropping other columns does not change what a row holds under a kept label. */
  lemma {:induction false} KeepCellsCell(cols: seq<string>, cells: seq<Value>, names: set<string>, c: string)
    requires |cells| == |cols| && c in cols && c !in names
    ensures c in KeepColumns(cols, names)
    ensures Cell(KeepColumns(cols, names), KeepCells(cols, cells, names), c) == Cell(cols, cells, c)
  {
    var kept, restCols := KeepColumns(cols, names), KeepColumns(cols[1..], names);
    var keptCells, restCells := KeepCells(cols, cells, names), KeepCells(cols[1..], cells[1..], names);
    if cols[0] == c {
      assert kept == [c] + restCols && keptCells == [cells[0]] + restCells;
      assert IndexOf(kept, c) == 0 && IndexOf(cols, c) == 0;
    } else {
      assert c in cols[1..];
      KeepCellsCell(cols[1..], cells[1..], names, c);
      assert IndexOf(cols, c) == 1 + IndexOf(cols[1..], c);
      assert Cell(cols, cells, c) == Cell(cols[1..], cells[1..], c);
      if cols[0] in names {
        assert kept == restCols && keptCells == restCells;
      } else {
        assert kept == [cols[0]] + restCols && keptCells == [cells[0]] + restCells;
        assert IndexOf(kept, c) == 1 + IndexOf(restCols, c);
      }
    }
  }

  function ProjectRows(rows: seq<Row>, cols: seq<string>, names: set<string>): (r: seq<Row>)
    requires Fits(rows, |cols|)
    ensures |r| == |rows| && Fits(r, |KeepColumns(cols, names)|)
    ensures forall i | 0 <= i < |rows| :: r[i] == Row(rows[i].index, KeepCells(cols, rows[i].cells, names))
  {
    seq(|rows|, i requires 0 <= i < |rows| => Row(rows[i].index, KeepCells(cols, rows[i].cells, names)))
  }

  function DropColumns(t: Table, names: set<string>): (r: Table)
    requires Wf(t)
    ensures Wf(r) && |r.rows| == |t.rows|
    ensures forall c :: c in r.columns <==> c in t.columns && c !in names
    ensures forall i | 0 <= i < |t.rows| :: r.rows[i].index == t.rows[i].index
    ensures forall i, c | 0 <= i < |t.rows| && c in r.columns ::
      Cell(r.columns, r.rows[i].cells, c) == Cell(t.columns, t.rows[i].cells, c)
  {
    ProjectRowsCells(t.rows, t.columns, names);
    Table(KeepColumns(t.columns, names), ProjectRows(t.rows, t.columns, names))
  }

  /** After a column drop, every row keeps its value under each surviving label. */
  lemma {:induction false} ProjectRowsCells(rows: seq<Row>, cols: seq<string>, names: set<string>)
    requires Fits(rows, |cols|)
    ensures forall i, c | 0 <= i < |rows| && c in KeepColumns(cols, names) ::
      |ProjectRows(rows, cols, names)[i].cells| == |KeepColumns(cols, names)| && |rows[i].cells| == |cols| && c in cols
      && Cell(KeepColumns(cols, names), ProjectRows(rows, cols, names)[i].cells, c) == Cell(cols, rows[i].cells, c)
  {
    forall i, c | 0 <= i < |rows| && c in KeepColumns(cols, names)
      ensures |ProjectRows(rows, cols, names)[i].cells| == |KeepColumns(cols, names)| && |rows[i].cells| == |cols| && c in cols
      ensures Cell(KeepColumns(cols, names), ProjectRows(rows, cols, names)[i].cells, c) == Cell(cols, rows[i].cells, c)
    {
      assert rows[i] in rows;
      KeepCellsCell(cols, rows[i].cells, names, c);
    }
  }

  // ---------------------------------------------------------------------------
  // df.dropna(subset=...)
  // ---------------------------------------------------------------------------

  /** Some column whose label is in `subset` holds a missing value. */
  predicate HasNull(cols: seq<string>, cells: seq<Value>, subset: seq<string>)
    requires |cells| == |cols|
  {
    exists i | 0 <= i < |cols| :: cols[i] in subset && cells[i].Null?
  }

  /** The labels of `names` that are not columns, in the order given. */
  function MissingFrom(cols: seq<string>, names: seq<string>): (r: seq<string>)
    ensures forall c :: c in r <==> c in names && c !in cols
  {
    if names == [] then []
    else (if names[0] in cols then [] else [names[0]]) + MissingFrom(cols, names[1..])
  }

  function DropNaRows(rows: seq<Row>, cols: seq<string>, subset: seq<string>): (r: seq<Row>)
    requires Fits(rows, |cols|)
    ensures |r| <= |rows| && Fits(r, |cols|)
    ensures forall x :: x in r <==> x in rows && !HasNull(cols, x.cells, subset)
  {
    if rows == [] then []
    else (if HasNull(cols, rows[0].cells, subset) then [] else [rows[0]]) + DropNaRows(rows[1..], cols, subset)
  }

  /** A subset label that is not a column is a KeyError; otherwise rows with a missing value there go. */
  function DropNa(t: Table, subset: seq<string>): (r: Result<Table>)
    requires Wf(t)
    ensures r.Err? <==> exists c | c in subset :: c !in t.columns
    ensures r.Ok? ==> r.value.columns == t.columns && Wf(r.value) && |r.value.rows| <= |t.rows|
    ensures r.Ok? ==> forall x :: x in r.value.rows <==> x in t.rows && !HasNull(t.columns, x.cells, subset)
    ensures r.Ok? ==> r.value.rows == DropNaRows(t.rows, t.columns, subset)
  {
    var missing := MissingFrom(t.columns, subset);
    if missing != [] then assert missing[0] in missing; Err(MissingColumns(missing))
    else Ok(Table(t.columns, DropNaRows(t.rows, t.columns, subset)))
  }

  // ---------------------------------------------------------------------------
  // df[name] = f(df[name])
  // ---------------------------------------------------------------------------

  /**
    Reading `df[name]` as a Series: a missing label is a KeyError; a label
    naming several columns yields a DataFrame, which the coercions reject.
  */
  function ColumnError(cols: seq<string>, name: string): (e: Option<Error>)
    ensures e.None? <==> Count(cols, name) == 1
    ensures name !in cols ==> e == Some(MissingColumns([name]))
    ensures Count(cols, name) > 1 ==> e == Some(DuplicateColumn(name))
  {
    var n := Count(cols, name);
    if n == 0 then Some(MissingColumns([name]))
    else if n > 1 then Some(DuplicateColumn(name))
    else None
  }

  function SetCellRows(rows: seq<Row>, p: nat, f: Value -> Value): (r: seq<Row>)
    requires forall x | x in rows :: p < |x.cells|
    ensures |r| == |rows|
    ensures forall i | 0 <= i < |rows| :: r[i] == Row(rows[i].index, rows[i].cells[p := f(rows[i].cells[p])])
  {
    seq(|rows|, i requires 0 <= i < |rows| => Row(rows[i].index, rows[i].cells[p := f(rows[i].cells[p])]))
  }

  function SetColumn(t: Table, name: string, f: Value -> Value): (r: Result<Table>)
    requires Wf(t)
    ensures r.Ok? <==> Count(t.columns, name) == 1
    ensures r.Err? ==> Some(r.error) == ColumnError(t.columns, name)
    ensures r.Ok? ==> r.value.columns == t.columns && Wf(r.value) && |r.value.rows| == |t.rows|
    ensures r.Ok? ==> r.value.rows == SetCellRows(t.rows, IndexOf(t.columns, name), f)
  {
    match ColumnError(t.columns, name)
    case Some(e) => Err(e)
    case None => Ok(Table(t.columns, SetCellRows(t.rows, IndexOf(t.columns, name), f)))
  }

  /** pd.to_datetime(..., errors='coerce') on one cell; `parse` is the library's parser. */
  function ToDatetime(parse: Value -> Option<int>, v: Value): (r: Value)
    ensures r.Null? || r.Time?
    ensures v.Null? ==> r.Null?
    ensures v.Time? ==> r == v
  {
    match v
    case Null => Null
    case Time(_) => v
    case _ => (match parse(v) case Some(t) => Time(t) case None => Null)
  }

  /** pd.to_numeric(..., errors='coerce') on one cell; `parse` is the library's parser. */
  function ToNumeric(parse: Value -> Option<real>, v: Value): (r: Value)
    ensures r.Null? || r.Number?
    ensures v.Null? ==> r.Null?
    ensures v.Number? ==> r == v
  {
    match v
    case Null => Null
    case Number(_) => v
    case _ => (match parse(v) case Some(x) => Number(x) case None => Null)
  }

  // ---------------------------------------------------------------------------
  // Row-wise selection: a reference for stages that transform and filter rows
  // ---------------------------------------------------------------------------

  /** The rows `keep` accepts, each reshaped by `shape`, in order and with their labels. */
  function SelectRows(rows: seq<Row>, shape: seq<Value> -> seq<Value>, keep: seq<Value> -> bool): (r: seq<Row>)
    ensures |r| <= |rows|
  {
    if rows == [] then []
    else
      (if keep(rows[0].cells) then [Row(rows[0].index, shape(rows[0].cells))] else [])
      + SelectRows(rows[1..], shape, keep)
  }

  /** `x` is the reshaped form of some input row that `keep` accepts. */
  predicate MadeFrom(rows: seq<Row>, shape: seq<Value> -> seq<Value>, keep: seq<Value> -> bool, x: Row)
  {
    exists j | 0 <= j < |rows| :: keep(rows[j].cells) && x == Row(rows[j].index, shape(rows[j].cells))
  }

  /** Every selected row is the reshaped form of an accepted input row. */
  lemma {:induction false} SelectRowsFrom(rows: seq<Row>, shape: seq<Value> -> seq<Value>, keep: seq<Value> -> bool)
    ensures forall k | 0 <= k < |SelectRows(rows, shape, keep)| :: MadeFrom(rows, shape, keep, SelectRows(rows, shape, keep)[k])
  {
    if rows != [] {
      SelectRowsFrom(rows[1..], shape, keep);
      var out, rest := SelectRows(rows, shape, keep), SelectRows(rows[1..], shape, keep);
      var kept := keep(rows[0].cells);
      assert out == (if kept then [Row(rows[0].index, shape(rows[0].cells))] else []) + rest;
      forall k | 0 <= k < |out| ensures MadeFrom(rows, shape, keep, out[k]) {
        if kept && k == 0 {
          assert keep(rows[0].cells) && out[0] == Row(rows[0].index, shape(rows[0].cells));
        } else {
          var k' := if kept then k - 1 else k;
          assert out[k] == rest[k'];
          assert MadeFrom(rows[1..], shape, keep, rest[k']);
          var j :| 0 <= j < |rows[1..]| && keep(rows[1..][j].cells)
            && rest[k'] == Row(rows[1..][j].index, shape(rows[1..][j].cells));
          assert rows[1..][j] == rows[j + 1];
          assert keep(rows[j + 1].cells) && out[k] == Row(rows[j + 1].index, shape(rows[j + 1].cells));
        }
      }
    }
  }

  /**
    On rows labelled base, base + 1, ..., a selected row's label names the
    input row it was made from.
  */
  lemma {:induction false} SelectRowsOrigin(rows: seq<Row>, shape: seq<Value> -> seq<Value>, keep: seq<Value> -> bool, base: int)
    requires forall i | 0 <= i < |rows| :: rows[i].index == base + i
    ensures forall k | 0 <= k < |SelectRows(rows, shape, keep)| ::
      base <= SelectRows(rows, shape, keep)[k].index < base + |rows|
    ensures forall k | 0 <= k < |SelectRows(rows, shape, keep)| ::
      var j := SelectRows(rows, shape, keep)[k].index - base;
      keep(rows[j].cells) && SelectRows(rows, shape, keep)[k].cells == shape(rows[j].cells)
  {
    SelectRowsFrom(rows, shape, keep);
    var out := SelectRows(rows, shape, keep);
    forall k | 0 <= k < |out|
      ensures base <= out[k].index < base + |rows|
      ensures keep(rows[out[k].index - base].cells) && out[k].cells == shape(rows[out[k].index - base].cells)
    {
      assert MadeFrom(rows, shape, keep, out[k]);
      var j :| 0 <= j < |rows| && keep(rows[j].cells) && out[k] == Row(rows[j].index, shape(rows[j].cells));
      assert out[k].index - base == j;
    }
  }

  /** SelectRowsOrigin for one selected row. */
  lemma {:induction false} SelectRowsMember(rows: seq<Row>, shape: seq<Value> -> seq<Value>, keep: seq<Value> -> bool, base: int, x: Row)
    requires forall i | 0 <= i < |rows| :: rows[i].index == base + i
    requires x in SelectRows(rows, shape, keep)
    ensures base <= x.index < base + |rows|
    ensures SelectedFrom(shape, keep, rows[x.index - base], x)
  {
    SelectRowsOrigin(rows, shape, keep, base);
    var out := SelectRows(rows, shape, keep);
    var k :| 0 <= k < |out| && out[k] == x;
    var j := x.index - base;
    assert 0 <= j < |rows| && keep(rows[j].cells) && x.cells == shape(rows[j].cells);
    assert rows[j].index == x.index;
  }

  /** `keep` accepts row `r`, and `x` is `r` reshaped by `shape`. */
  predicate SelectedFrom(shape: seq<Value> -> seq<Value>, keep: seq<Value> -> bool, r: Row, x: Row) {
    keep(r.cells) && x == Row(r.index, shape(r.cells))
  }

  /** On rows labelled base, base + 1, ..., the selected labels strictly increase. */
  lemma {:induction false} SelectRowsIncreasing(rows: seq<Row>, shape: seq<Value> -> seq<Value>, keep: seq<Value> -> bool, base: int)
    requires forall i | 0 <= i < |rows| :: rows[i].index == base + i
    ensures StrictlyIncreasing(SelectRows(rows, shape, keep))
  {
    if rows != [] {
      var tail := rows[1..];
      forall i | 0 <= i < |tail| ensures tail[i].index == (base + 1) + i {
        assert tail[i] == rows[i + 1];
      }
      SelectRowsIncreasing(tail, shape, keep, base + 1);
      SelectRowsOrigin(tail, shape, keep, base + 1);
      var out, rest := SelectRows(rows, shape, keep), SelectRows(tail, shape, keep);
      var kept := keep(rows[0].cells);
      assert out == (if kept then [Row(rows[0].index, shape(rows[0].cells))] else []) + rest;
      if kept {
        forall i, j | 0 <= i < j < |out| ensures out[i].index < out[j].index {
          assert out[j] == rest[j - 1];
          if i > 0 {
            assert out[i] == rest[i - 1];
          }
        }
      }
    }
  }

  /** On rows labelled base, base + 1, ..., an input row's label is selected exactly when `keep` accepts the row. */
  lemma {:induction false} SelectRowsKeeps(rows: seq<Row>, shape: seq<Value> -> seq<Value>, keep: seq<Value> -> bool, base: int)
    requires forall i | 0 <= i < |rows| :: rows[i].index == base + i
    ensures forall j | 0 <= j < |rows| :: keep(rows[j].cells) <==> HasLabel(SelectRows(rows, shape, keep), base + j)
  {
    var out := SelectRows(rows, shape, keep);
    SelectRowsOrigin(rows, shape, keep, base);
    forall j | 0 <= j < |rows|
      ensures keep(rows[j].cells) <==> HasLabel(out, base + j)
    {
      if HasLabel(out, base + j) {
        var x :| x in out && x.index == base + j;
        var k :| 0 <= k < |out| && out[k] == x;
      }
      if keep(rows[j].cells) {
        SelectRowsHas(rows, shape, keep, j);
      }
    }
  }

  /** An accepted input row yields a selected row with its label. */
  lemma {:induction false} SelectRowsHas(rows: seq<Row>, shape: seq<Value> -> seq<Value>, keep: seq<Value> -> bool, j: int)
    requires 0 <= j < |rows| && keep(rows[j].cells)
    ensures Row(rows[j].index, shape(rows[j].cells)) in SelectRows(rows, shape, keep)
  {
    var out, rest := SelectRows(rows, shape, keep), SelectRows(rows[1..], shape, keep);
    var kept := keep(rows[0].cells);
    assert out == (if kept then [Row(rows[0].index, shape(rows[0].cells))] else []) + rest;
    if j > 0 {
      assert rows[1..][j - 1] == rows[j];
      SelectRowsHas(rows[1..], shape, keep, j - 1);
    }
  }

  // Row stages written as selections, so that a chain of stages can be fused into one.

  function Unchanged(): seq<Value> -> seq<Value> { c => c }

  function Any(): seq<Value> -> bool { c => true }

  function NoNull(cols: seq<string>, subset: seq<string>): seq<Value> -> bool {
    c => |c| == |cols| && !HasNull(cols, c, subset)
  }

  function Project(cols: seq<string>, names: set<string>): seq<Value> -> seq<Value> {
    c => if |c| == |cols| then KeepCells(cols, c, names) else c
  }

  function SetAt(p: nat, f: Value -> Value): seq<Value> -> seq<Value> {
    c => if p < |c| then c[p := f(c[p])] else c
  }

  /** Reshape by s1, then by s2. */
  function Then(s1: seq<Value> -> seq<Value>, s2: seq<Value> -> seq<Value>): seq<Value> -> seq<Value> {
    c => s2(s1(c))
  }

  /** Accepted by k1, and by k2 once reshaped by s1. */
  function Both(s1: seq<Value> -> seq<Value>, k1: seq<Value> -> bool, k2: seq<Value> -> bool): seq<Value> -> bool {
    c => k1(c) && k2(s1(c))
  }

  lemma {:induction false} ThenApply(s1: seq<Value> -> seq<Value>, s2: seq<Value> -> seq<Value>, c: seq<Value>)
    ensures Then(s1, s2)(c) == s2(s1(c))
  {
  }

  lemma {:induction false} BothApply(s1: seq<Value> -> seq<Value>, k1: seq<Value> -> bool, k2: seq<Value> -> bool, c: seq<Value>)
    ensures Both(s1, k1, k2)(c) == (k1(c) && k2(s1(c)))
  {
  }

  lemma {:induction false} AnyApply(c: seq<Value>)
    ensures Any()(c)
  {
  }

  lemma {:induction false} SetAtApply(p: nat, f: Value -> Value, c: seq<Value>)
    requires p < |c|
    ensures SetAt(p, f)(c) == c[p := f(c[p])]
  {
  }

  lemma {:induction false} DropNaRowsSelects(rows: seq<Row>, cols: seq<string>, subset: seq<string>)
    requires Fits(rows, |cols|)
    ensures DropNaRows(rows, cols, subset) == SelectRows(rows, Unchanged(), NoNull(cols, subset))
  {
    if rows != [] {
      assert rows[0] in rows;
      DropNaRowsSelects(rows[1..], cols, subset);
      assert Row(rows[0].index, rows[0].cells) == rows[0];
    }
  }

  lemma {:induction false} ProjectRowsSelects(rows: seq<Row>, cols: seq<string>, names: set<string>)
    requires Fits(rows, |cols|)
    ensures ProjectRows(rows, cols, names) == SelectRows(rows, Project(cols, names), Any())
  {
    var pr, sr := ProjectRows(rows, cols, names), SelectRows(rows, Project(cols, names), Any());
    SelectAllRows(rows, Project(cols, names));
    forall i | 0 <= i < |rows| ensures pr[i] == sr[i] {
      assert rows[i] in rows;
    }
  }

  /** Selecting with Any keeps every row, reshaped. */
  lemma {:induction false} SelectAllRows(rows: seq<Row>, shape: seq<Value> -> seq<Value>)
    ensures |SelectRows(rows, shape, Any())| == |rows|
    ensures forall i | 0 <= i < |rows| :: SelectRows(rows, shape, Any())[i] == Row(rows[i].index, shape(rows[i].cells))
  {
    if rows != [] {
      SelectAllRows(rows[1..], shape);
      var sr, rest := SelectRows(rows, shape, Any()), SelectRows(rows[1..], shape, Any());
      assert Any()(rows[0].cells);
      assert sr == [Row(rows[0].index, shape(rows[0].cells))] + rest;
      forall i | 1 <= i < |rows| ensures sr[i] == Row(rows[i].index, shape(rows[i].cells)) {
        assert sr[i] == rest[i - 1] && rows[1..][i - 1] == rows[i];
      }
    }
  }

  lemma {:induction false} SetCellRowsSelects(rows: seq<Row>, p: nat, f: Value -> Value)
    requires forall x | x in rows :: p < |x.cells|
    ensures SetCellRows(rows, p, f) == SelectRows(rows, SetAt(p, f), Any())
  {
    if rows != [] {
      SetCellRowsSelects(rows[1..], p, f);
      assert SetCellRows(rows, p, f)[1..] == SetCellRows(rows[1..], p, f);
    }
  }

  /** Two selections in a row are one. */
  lemma {:induction false} SelectRowsFuse(rows: seq<Row>, s1: seq<Value> -> seq<Value>, k1: seq<Value> -> bool,
                                          s2: seq<Value> -> seq<Value>, k2: seq<Value> -> bool)
    ensures SelectRows(SelectRows(rows, s1, k1), s2, k2) == SelectRows(rows, Then(s1, s2), Both(s1, k1, k2))
  {
    if rows != [] {
      SelectRowsFuse(rows[1..], s1, k1, s2, k2);
      var mid := SelectRows(rows, s1, k1);
      var rest := SelectRows(rows[1..], s1, k1);
      if k1(rows[0].cells) {
        assert mid == [Row(rows[0].index, s1(rows[0].cells))] + rest;
        assert mid[0] == Row(rows[0].index, s1(rows[0].cells)) && mid[1..] == rest;
      } else {
        assert mid == rest;
      }
    }
  }

  /** Accepted by k once reshaped by s. */
  function After(s: seq<Value> -> seq<Value>, k: seq<Value> -> bool): seq<Value> -> bool {
    c => k(s(c))
  }

  lemma {:induction false} AfterApply(s: seq<Value> -> seq<Value>, k: seq<Value> -> bool, c: seq<Value>)
    ensures After(s, k)(c) == k(s(c))
  {
  }

  /** A reshaping of every row followed by a selection is one selection. */
  lemma {:induction false} SelectRowsFuseMap(rows: seq<Row>, s1: seq<Value> -> seq<Value>,
                                             s2: seq<Value> -> seq<Value>, k2: seq<Value> -> bool)
    ensures SelectRows(SelectRows(rows, s1, Any()), s2, k2) == SelectRows(rows, Then(s1, s2), After(s1, k2))
  {
    if rows != [] {
      SelectRowsFuseMap(rows[1..], s1, s2, k2);
      var mid := SelectRows(rows, s1, Any());
      var rest := SelectRows(rows[1..], s1, Any());
      AnyApply(rows[0].cells);
      assert mid == [Row(rows[0].index, s1(rows[0].cells))] + rest;
      assert mid[0] == Row(rows[0].index, s1(rows[0].cells)) && mid[1..] == rest;
    }
  }

  /** Two reshapings of every row are one. */
  lemma {:induction false} SelectRowsFuseMaps(rows: seq<Row>, s1: seq<Value> -> seq<Value>, s2: seq<Value> -> seq<Value>)
    ensures SelectRows(SelectRows(rows, s1, Any()), s2, Any()) == SelectRows(rows, Then(s1, s2), Any())
  {
    if rows != [] {
      SelectRowsFuseMaps(rows[1..], s1, s2);
      var mid := SelectRows(rows, s1, Any());
      var rest := SelectRows(rows[1..], s1, Any());
      AnyApply(rows[0].cells);
      AnyApply(s1(rows[0].cells));
      assert mid == [Row(rows[0].index, s1(rows[0].cells))] + rest;
      assert mid[0] == Row(rows[0].index, s1(rows[0].cells)) && mid[1..] == rest;
    }
  }

  /** Selections that agree on every given row select the same. */
  lemma {:induction false} SelectRowsAgree(rows: seq<Row>, s1: seq<Value> -> seq<Value>, k1: seq<Value> -> bool,
                                           s2: seq<Value> -> seq<Value>, k2: seq<Value> -> bool)
    requires forall x | x in rows :: k1(x.cells) == k2(x.cells) && (k1(x.cells) ==> s1(x.cells) == s2(x.cells))
    ensures SelectRows(rows, s1, k1) == SelectRows(rows, s2, k2)
  {
    if rows != [] {
      assert rows[0] in rows;
      SelectRowsAgree(rows[1..], s1, k1, s2, k2);
    }
  }

  // ---------------------------------------------------------------------------
  // df.drop([labels], axis=0) and df.reset_index(drop=True)
  // ---------------------------------------------------------------------------

  /** The requested labels that the index does not hold, in the order given. */
  function AbsentLabels(rows: seq<Row>, labels: seq<int>): (r: seq<int>)
    ensures forall i | 0 <= i < |r| :: r[i] in labels && !HasLabel(rows, r[i])
    ensures forall l | l in labels && !HasLabel(rows, l) :: l in r
  {
    if labels == [] then []
    else (if HasLabel(rows, labels[0]) then [] else [labels[0]]) + AbsentLabels(rows, labels[1..])
  }

  function KeepUnlabelled(rows: seq<Row>, labels: seq<int>): (r: seq<Row>)
    ensures |r| <= |rows|
    ensures forall x :: x in r <==> x in rows && x.index !in labels
  {
    if rows == [] then []
    else (if rows[0].index in labels then [] else [rows[0]]) + KeepUnlabelled(rows[1..], labels)
  }

  /** Removing a label the index does not hold is a KeyError. */
  function DropLabels(t: Table, labels: seq<int>): (r: Result<Table>)
    ensures r.Err? <==> exists l | l in labels :: !HasLabel(t.rows, l)
    ensures r.Err? ==> r.error == MissingLabels(AbsentLabels(t.rows, labels))
    ensures r.Ok? ==> r.value.columns == t.columns && (Wf(t) ==> Wf(r.value))
    ensures r.Ok? ==> r.value.rows == KeepUnlabelled(t.rows, labels)
  {
    var absent := AbsentLabels(t.rows, labels);
    if absent != [] then
      assert absent[0] in labels && !HasLabel(t.rows, absent[0]);
      Err(MissingLabels(absent))
    else Ok(Table(t.columns, KeepUnlabelled(t.rows, labels)))
  }

  function Relabel(rows: seq<Row>, start: int): (r: seq<Row>)
    ensures |r| == |rows|
    ensures forall i | 0 <= i < |rows| :: r[i] == Row(start + i, rows[i].cells)
  {
    seq(|rows|, i requires 0 <= i < |rows| => Row(start + i, rows[i].cells))
  }

  function ResetIndex(t: Table): (r: Table)
    ensures r.columns == t.columns && DefaultIndex(r.rows)
    ensures |r.rows| == |t.rows| && (Wf(t) ==> Wf(r))
    ensures forall i | 0 <= i < |t.rows| :: r.rows[i].cells == t.rows[i].cells
  {
    Table(t.columns, Relabel(t.rows, 0))
  }

  function Range(n: nat): (r: seq<int>)
    ensures |r| == n && forall i | 0 <= i < n :: r[i] == i
  {
    seq(n, i => i)
  }

  /**
    On rows labelled base, base + 1, ... (base <= n), dropping the labels
    0 .. n - 1 removes exactly the first n - base rows and keeps the rest in order.
  */
  lemma {:induction false} KeepUnlabelledPrefix(rows: seq<Row>, base: int, n: nat)
    requires 0 <= base <= n
    requires forall i | 0 <= i < |rows| :: rows[i].index == base + i
    ensures KeepUnlabelled(rows, Range(n)) == if n - base <= |rows| then rows[n - base..] else []
  {
    if rows != [] {
      var rest := rows[1..];
      forall i | 0 <= i < |rest| ensures rest[i].index == (base + 1) + i {
        assert rest[i] == rows[i + 1];
      }
      if base < n {
        assert rows[0].index == Range(n)[base];
        KeepUnlabelledPrefix(rest, base + 1, n);
        if n - base <= |rows| {
          assert rest[n - (base + 1)..] == rows[n - base..];
        }
      } else {
        assert rows[0].index !in Range(n);
        KeepUnlabelledSuffix(rest, base + 1, n);
        assert [rows[0]] + rest == rows;
      }
    }
  }

  /** Rows whose labels are all at least n survive dropping 0 .. n - 1. */
  lemma {:induction false} KeepUnlabelledSuffix(rows: seq<Row>, base: int, n: nat)
    requires n <= base
    requires forall i | 0 <= i < |rows| :: rows[i].index == base + i
    ensures KeepUnlabelled(rows, Range(n)) == rows
  {
    if rows != [] {
      var rest := rows[1..];
      forall i | 0 <= i < |rest| ensures rest[i].index == (base + 1) + i {
        assert rest[i] == rows[i + 1];
      }
      assert rows[0].index !in Range(n);
      KeepUnlabelledSuffix(rest, base + 1, n);
      assert [rows[0]] + rest == rows;
    }
  }
}
