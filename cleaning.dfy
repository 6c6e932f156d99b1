/**
  The two dataset cleaners of node.py: data1_clean for the alarm/event log
  and data2_clean for the availability/latency/packet-loss samples.

  Each cleaner is a method that runs the same pandas stages, in the same
  order, as the source. Each is proved equal to a one-pass reference,
  CleanRows: every raw row is renamed, projected and coerced on its own
  (CleanCells), and it stays exactly when the coerced row has every required
  cell present (Kept). The properties of the cleaned tables are lemmas about
  that reference.
*/
module Cleaning {
  import opened Frame

  datatype Source = EventLog | MetricSample

  /** The library parsers behind pd.to_datetime and pd.to_numeric; each yields a value or fails. */
  datatype Parsers = Parsers(datetime: Value -> Option<int>, numeric: Value -> Option<real>)

  function AsDatetime(ps: Parsers): Value -> Value {
    v => ToDatetime(ps.datetime, v)
  }

  function AsNumeric(ps: Parsers): Value -> Value {
    v => ToNumeric(ps.numeric, v)
  }

  // ---------------------------------------------------------------------------
  // The two layouts
  // ---------------------------------------------------------------------------

  const EventRenames: map<string, string> := map[
    "Unnamed: 0" := "Sl.no",
    "Unnamed: 1" := "IP Address",
    "Unnamed: 4" := "Event",
    "Unnamed: 6" := "Alarm Time",
    "Unnamed: 2" := "Node Alias"]

  const EventDrops: set<string> := {"Sl.no", "Clear Time", "Duration", "Description", "Host Name"}

  const EventRequired: seq<string> := ["Node Alias", "Alarm Time"]

  /** The row labels of the report header that data2_clean discards. */
  const HeaderLabels: seq<int> := [0, 1, 2, 3, 4]

  const MetricDrops: set<string> := {"Unnamed: 2", "Unnamed: 3"}

  const MetricRenames: map<string, string> := map[
    "Unnamed: 0" := "Node Alias",
    "Unnamed: 1" := "IP Address",
    "Unnamed: 4" := "Availability",
    "Unnamed: 5" := "Latency(msec)",
    "Unnamed: 6" := "Packet Loss(%)"]

  /** The measurement columns, in the order they are coerced and checked. */
  const Measures: seq<string> := ["Packet Loss(%)", "Availability", "Latency(msec)"]

  /** The column labels a cleaned table has, given the labels of the sheet as read. */
  function Columns(src: Source, raw: seq<string>): seq<string> {
    match src
    case EventLog => KeepColumns(RenameColumns(raw, EventRenames), EventDrops)
    case MetricSample => RenameColumns(KeepColumns(raw, MetricDrops), MetricRenames)
  }

  /** The labels a row must hold a value under to be kept (the dropna subsets). */
  function Required(src: Source): seq<string> {
    match src
    case EventLog => EventRequired
    case MetricSample => Measures
  }

  /** The layouts on which every stage of the cleaner succeeds. */
  predicate LayoutOk(src: Source, raw: seq<string>) {
    var cols := Columns(src, raw);
    match src
    case EventLog => "Node Alias" in cols && Count(cols, "Alarm Time") == 1
    case MetricSample =>
      Count(cols, "Packet Loss(%)") == 1 && Count(cols, "Availability") == 1 && Count(cols, "Latency(msec)") == 1
  }

  /** The exception data2_clean's coercions raise first, if any. */
  function MeasureError(cols: seq<string>): (e: Option<Error>)
    ensures e.None? <==>
      Count(cols, "Packet Loss(%)") == 1 && Count(cols, "Availability") == 1 && Count(cols, "Latency(msec)") == 1
  {
    if ColumnError(cols, "Packet Loss(%)").Some? then ColumnError(cols, "Packet Loss(%)")
    else if ColumnError(cols, "Availability").Some? then ColumnError(cols, "Availability")
    else ColumnError(cols, "Latency(msec)")
  }

  // ---------------------------------------------------------------------------
  // The one-pass reference
  // ---------------------------------------------------------------------------

  /** One raw row after renaming, dropping columns and coercing, before any row is dropped. */
  function CleanCells(src: Source, raw: seq<string>, cells: seq<Value>, ps: Parsers): (r: seq<Value>)
    requires |cells| == |raw| && LayoutOk(src, raw)
    ensures |r| == |Columns(src, raw)|
  {
    var cols := Columns(src, raw);
    match src
    case EventLog =>
      var kept := KeepCells(RenameColumns(raw, EventRenames), cells, EventDrops);
      var p := IndexOf(cols, "Alarm Time");
      kept[p := AsDatetime(ps)(kept[p])]
    case MetricSample =>
      var kept := KeepCells(raw, cells, MetricDrops);
      var a, b, c := IndexOf(cols, "Packet Loss(%)"), IndexOf(cols, "Availability"), IndexOf(cols, "Latency(msec)");
      SetAt(c, AsNumeric(ps))(SetAt(b, AsNumeric(ps))(SetAt(a, AsNumeric(ps))(kept)))
  }

  /** A raw row survives cleaning exactly when no required cell of its cleaned form is missing. */
  predicate Kept(src: Source, raw: seq<string>, cells: seq<Value>, ps: Parsers)
    requires |cells| == |raw| && LayoutOk(src, raw)
  {
    !HasNull(Columns(src, raw), CleanCells(src, raw, cells, ps), Required(src))
  }

  /** The coerced cells hold the coerced type: a timestamp, or three numbers. */
  predicate Typed(src: Source, raw: seq<string>, cells: seq<Value>)
    requires LayoutOk(src, raw) && |cells| == |Columns(src, raw)|
  {
    var cols := Columns(src, raw);
    match src
    case EventLog => Cell(cols, cells, "Alarm Time").Time?
    case MetricSample =>
      Cell(cols, cells, "Packet Loss(%)").Number? && Cell(cols, cells, "Availability").Number?
      && Cell(cols, cells, "Latency(msec)").Number?
  }

  lemma {:induction false} KeptIsTyped(src: Source, raw: seq<string>, cells: seq<Value>, ps: Parsers)
    requires |cells| == |raw| && LayoutOk(src, raw) && Kept(src, raw, cells, ps)
    ensures Typed(src, raw, CleanCells(src, raw, cells, ps))
  {
    var cols, r := Columns(src, raw), CleanCells(src, raw, cells, ps);
    match src
    case EventLog =>
      var p := IndexOf(cols, "Alarm Time");
      assert cols[p] in Required(src);
    case MetricSample =>
      var a, b, c := IndexOf(cols, "Packet Loss(%)"), IndexOf(cols, "Availability"), IndexOf(cols, "Latency(msec)");
      var f, kept := AsNumeric(ps), KeepCells(raw, cells, MetricDrops);
      SetAtApply(a, f, kept);
      SetAtApply(b, f, SetAt(a, f)(kept));
      SetAtApply(c, f, SetAt(b, f)(SetAt(a, f)(kept)));
      assert cols[a] in Required(src) && cols[b] in Required(src) && cols[c] in Required(src);
  }

  /** CleanCells as a function on cells (a row of the wrong width or layout is left alone). */
  function Shape(src: Source, raw: seq<string>, ps: Parsers): seq<Value> -> seq<Value> {
    cells => if |cells| == |raw| && LayoutOk(src, raw) then CleanCells(src, raw, cells, ps) else cells
  }

  /** Kept as a test on cells. */
  function Keep(src: Source, raw: seq<string>, ps: Parsers): seq<Value> -> bool {
    cells => |cells| == |raw| && LayoutOk(src, raw) && Kept(src, raw, cells, ps)
  }

  /** The cleaned rows: the Kept raw rows, each cleaned, in their original order and with their original labels. */
  function CleanRows(src: Source, raw: seq<string>, rows: seq<Row>, ps: Parsers): (r: seq<Row>)
    ensures |r| <= |rows|
  {
    SelectRows(rows, Shape(src, raw, ps), Keep(src, raw, ps))
  }

  /** The raw cells `cells` are Kept and clean to `out`. */
  predicate CleansTo(src: Source, raw: seq<string>, cells: seq<Value>, ps: Parsers, out: seq<Value>) {
    |cells| == |raw| && LayoutOk(src, raw) && Kept(src, raw, cells, ps) && out == CleanCells(src, raw, cells, ps)
  }

  /** On rows labelled base, base + 1, ..., each cleaned row's label names the raw row it comes from, which is Kept and cleans to its cells. */
  lemma {:induction false} CleanRowsOrigin(src: Source, raw: seq<string>, rows: seq<Row>, ps: Parsers, base: int)
    requires forall i | 0 <= i < |rows| :: rows[i].index == base + i
    ensures forall x | x in CleanRows(src, raw, rows, ps) ::
      base <= x.index < base + |rows| && CleansTo(src, raw, rows[x.index - base].cells, ps, x.cells)
  {
    forall x | x in CleanRows(src, raw, rows, ps)
      ensures base <= x.index < base + |rows| && CleansTo(src, raw, rows[x.index - base].cells, ps, x.cells)
    {
      SelectRowsMember(rows, Shape(src, raw, ps), Keep(src, raw, ps), base, x);
      KeepCleans(src, raw, ps, rows[x.index - base], x);
    }
  }

  /** A row that Keep accepts and that Shape turns into `x` cleans to `x`. */
  lemma {:induction false} KeepCleans(src: Source, raw: seq<string>, ps: Parsers, r: Row, x: Row)
    requires SelectedFrom(Shape(src, raw, ps), Keep(src, raw, ps), r, x)
    ensures CleansTo(src, raw, r.cells, ps, x.cells)
  {
  }

  /** On rows labelled base, base + 1, ..., the cleaned rows' labels strictly increase. */
  lemma {:induction false} CleanRowsIncreasing(src: Source, raw: seq<string>, rows: seq<Row>, ps: Parsers, base: int)
    requires forall i | 0 <= i < |rows| :: rows[i].index == base + i
    ensures StrictlyIncreasing(CleanRows(src, raw, rows, ps))
  {
    SelectRowsIncreasing(rows, Shape(src, raw, ps), Keep(src, raw, ps), base);
  }

  /** On rows labelled base, base + 1, ..., a raw row's label survives exactly when the row is Kept. */
  lemma {:induction false} CleanRowsKeeps(src: Source, raw: seq<string>, rows: seq<Row>, ps: Parsers, base: int)
    requires Fits(rows, |raw|) && LayoutOk(src, raw)
    requires forall i | 0 <= i < |rows| :: rows[i].index == base + i
    ensures forall j | 0 <= j < |rows| ::
      Kept(src, raw, rows[j].cells, ps) <==> HasLabel(CleanRows(src, raw, rows, ps), base + j)
  {
    SelectRowsKeeps(rows, Shape(src, raw, ps), Keep(src, raw, ps), base);
    forall j | 0 <= j < |rows|
      ensures Kept(src, raw, rows[j].cells, ps) <==> Keep(src, raw, ps)(rows[j].cells)
    {
      assert rows[j] in rows;
    }
  }

  /** Every cleaned row has the cleaned width and holds all its required cells, coerced to their type. */
  lemma {:induction false} CleanRowsComplete(src: Source, raw: seq<string>, rows: seq<Row>, ps: Parsers)
    requires Fits(rows, |raw|) && LayoutOk(src, raw)
    ensures Fits(CleanRows(src, raw, rows, ps), |Columns(src, raw)|)
    ensures forall k | 0 <= k < |CleanRows(src, raw, rows, ps)| ::
      !HasNull(Columns(src, raw), CleanRows(src, raw, rows, ps)[k].cells, Required(src))
      && Typed(src, raw, CleanRows(src, raw, rows, ps)[k].cells)
  {
    var shape, keep := Shape(src, raw, ps), Keep(src, raw, ps);
    SelectRowsFrom(rows, shape, keep);
    var out := CleanRows(src, raw, rows, ps);
    forall k | 0 <= k < |out|
      ensures |out[k].cells| == |Columns(src, raw)|
      ensures !HasNull(Columns(src, raw), out[k].cells, Required(src)) && Typed(src, raw, out[k].cells)
    {
      assert MadeFrom(rows, shape, keep, out[k]);
      var j :| 0 <= j < |rows| && keep(rows[j].cells) && out[k] == Row(rows[j].index, shape(rows[j].cells));
      assert rows[j] in rows;
      KeptIsTyped(src, raw, rows[j].cells, ps);
    }
    forall x | x in out ensures |x.cells| == |Columns(src, raw)| {
      var k :| 0 <= k < |out| && out[k] == x;
    }
  }

  // ---------------------------------------------------------------------------
  // data1_clean
  // ---------------------------------------------------------------------------

  /**
    Coercing the "Alarm Time" cell between two dropna passes: the row survives
    both passes exactly when the coerced row has no missing required cell.
  */
  lemma {:induction false} CoerceBetweenDropNa(cols: seq<string>, kc: seq<Value>, p: nat, f: Value -> Value)
    requires |kc| == |cols| && p < |cols| && cols[p] == "Alarm Time"
    requires forall v: Value | v.Null? :: f(v).Null?
    ensures !HasNull(cols, kc[p := f(kc[p])], EventRequired)
      <==> !HasNull(cols, kc, EventRequired) && !HasNull(cols, kc[p := f(kc[p])], ["Alarm Time"])
  {
    var cleaned := kc[p := f(kc[p])];
    if HasNull(cols, kc, EventRequired) {
      var i :| 0 <= i < |cols| && cols[i] in EventRequired && kc[i].Null?;
      assert cleaned[i].Null?;
    }
    if HasNull(cols, cleaned, EventRequired) {
      var i :| 0 <= i < |cols| && cols[i] in EventRequired && cleaned[i].Null?;
      if i != p {
        assert cleaned[i] == kc[i];
      } else {
        assert cols[p] in ["Alarm Time"];
      }
    }
    if HasNull(cols, cleaned, ["Alarm Time"]) {
      var i :| 0 <= i < |cols| && cols[i] in ["Alarm Time"] && cleaned[i].Null?;
      assert cols[i] in EventRequired;
    }
  }

  /** One event row through the stages of data1_clean: dropna, then the coercion, then dropna again. */
  lemma {:induction false} EventRow(raw: seq<string>, cells: seq<Value>, ps: Parsers)
    requires |cells| == |raw| && LayoutOk(EventLog, raw)
    ensures var cols := Columns(EventLog, raw);
      var kc := KeepCells(RenameColumns(raw, EventRenames), cells, EventDrops);
      var p := IndexOf(cols, "Alarm Time");
      var cleaned := kc[p := AsDatetime(ps)(kc[p])];
      cleaned == CleanCells(EventLog, raw, cells, ps)
      && (Kept(EventLog, raw, cells, ps) <==> !HasNull(cols, kc, EventRequired) && !HasNull(cols, cleaned, ["Alarm Time"]))
  {
    var cols := Columns(EventLog, raw);
    var kc := KeepCells(RenameColumns(raw, EventRenames), cells, EventDrops);
    var p := IndexOf(cols, "Alarm Time");
    var cleaned := kc[p := AsDatetime(ps)(kc[p])];
    assert cleaned == CleanCells(EventLog, raw, cells, ps);
    assert Kept(EventLog, raw, cells, ps) == !HasNull(cols, cleaned, EventRequired);
    CoerceBetweenDropNa(cols, kc, p, AsDatetime(ps));
  }

  /** Keep and Shape, applied to a row of the sheet's width, are Kept and CleanCells. */
  lemma {:induction false} KeepShapeApply(src: Source, raw: seq<string>, cells: seq<Value>, ps: Parsers)
    requires |cells| == |raw| && LayoutOk(src, raw)
    ensures Keep(src, raw, ps)(cells) == Kept(src, raw, cells, ps)
    ensures Shape(src, raw, ps)(cells) == CleanCells(src, raw, cells, ps)
  {
  }

  /**
    The four row stages of data1_clean fused into one selection: project the
    renamed columns, dropna on the required labels, coerce column p by f,
    dropna on "Alarm Time".
  */
  function EventStagesShape(renamed: seq<string>, p: nat, f: Value -> Value): seq<Value> -> seq<Value> {
    Then(Then(Then(Project(renamed, EventDrops), Unchanged()), SetAt(p, f)), Unchanged())
  }

  function EventStagesKeep(renamed: seq<string>, cols: seq<string>, p: nat, f: Value -> Value): seq<Value> -> bool {
    var project := Project(renamed, EventDrops);
    var s1, k1 := Then(project, Unchanged()), Both(project, Any(), NoNull(cols, EventRequired));
    var s2, k2 := Then(s1, SetAt(p, f)), Both(s1, k1, Any());
    Both(s2, k2, NoNull(cols, ["Alarm Time"]))
  }

  lemma {:induction false} EventStagesFused(raw: seq<string>, rows: seq<Row>, ps: Parsers)
    requires Fits(rows, |raw|) && LayoutOk(EventLog, raw)
    ensures var renamed := RenameColumns(raw, EventRenames);
      var cols := Columns(EventLog, raw);
      var projected := ProjectRows(rows, renamed, EventDrops);
      var present := DropNaRows(projected, cols, EventRequired);
      var coerced := SetCellRows(present, AlarmAt(raw), AsDatetime(ps));
      Fits(coerced, |cols|)
      && DropNaRows(coerced, cols, ["Alarm Time"])
         == SelectRows(rows, EventStagesShape(renamed, AlarmAt(raw), AsDatetime(ps)),
                       EventStagesKeep(renamed, cols, AlarmAt(raw), AsDatetime(ps)))
  {
    var renamed := RenameColumns(raw, EventRenames);
    var cols := Columns(EventLog, raw);
    var p := AlarmAt(raw);
    var projected := ProjectRows(rows, renamed, EventDrops);
    var present := DropNaRows(projected, cols, EventRequired);
    var coerced := SetCellRows(present, p, AsDatetime(ps));
    forall x | x in coerced ensures |x.cells| == |cols| {
      var k :| 0 <= k < |coerced| && coerced[k] == x;
      assert present[k] in present;
    }
    var project, present1, coerce, present2 := Project(renamed, EventDrops), NoNull(cols, EventRequired),
      SetAt(p, AsDatetime(ps)), NoNull(cols, ["Alarm Time"]);
    ProjectRowsSelects(rows, renamed, EventDrops);
    DropNaRowsSelects(projected, cols, EventRequired);
    SetCellRowsSelects(present, p, AsDatetime(ps));
    DropNaRowsSelects(coerced, cols, ["Alarm Time"]);
    SelectRowsFuse(rows, project, Any(), Unchanged(), present1);
    var s1, k1 := Then(project, Unchanged()), Both(project, Any(), present1);
    SelectRowsFuse(rows, s1, k1, coerce, Any());
    var s2, k2 := Then(s1, coerce), Both(s1, k1, Any());
    SelectRowsFuse(rows, s2, k2, Unchanged(), present2);
  }

  /** The fused reshaping on one row of the sheet's width. */
  lemma {:induction false} EventStagesShapeApply(renamed: seq<string>, cells: seq<Value>, p: nat, f: Value -> Value)
    requires |cells| == |renamed| && p < |KeepColumns(renamed, EventDrops)|
    ensures var kc := KeepCells(renamed, cells, EventDrops);
      EventStagesShape(renamed, p, f)(cells) == kc[p := f(kc[p])]
  {
    var kc := KeepCells(renamed, cells, EventDrops);
    var s1 := Then(Project(renamed, EventDrops), Unchanged());
    assert s1(cells) == kc;
    assert Then(s1, SetAt(p, f))(cells) == kc[p := f(kc[p])];
  }

  /** The fused test on one row of the sheet's width. */
  lemma {:induction false} EventStagesKeepApply(renamed: seq<string>, cols: seq<string>, cells: seq<Value>, p: nat, f: Value -> Value)
    requires |cells| == |renamed| && |KeepColumns(renamed, EventDrops)| == |cols| && p < |cols|
    ensures var kc := KeepCells(renamed, cells, EventDrops);
      EventStagesKeep(renamed, cols, p, f)(cells)
      == (!HasNull(cols, kc, EventRequired) && !HasNull(cols, kc[p := f(kc[p])], ["Alarm Time"]))
  {
    var kc := KeepCells(renamed, cells, EventDrops);
    var cleaned := kc[p := f(kc[p])];
    var project := Project(renamed, EventDrops);
    var s1, k1 := Then(project, Unchanged()), Both(project, Any(), NoNull(cols, EventRequired));
    var s2, k2 := Then(s1, SetAt(p, f)), Both(s1, k1, Any());
    assert project(cells) == kc;
    assert s1(cells) == kc;
    assert k1(cells) == !HasNull(cols, kc, EventRequired);
    assert s2(cells) == cleaned;
    assert k2(cells) == k1(cells);
    assert EventStagesKeep(renamed, cols, p, f) == Both(s2, k2, NoNull(cols, ["Alarm Time"]));
  }

  /** Where "Alarm Time" sits in a cleaned event table. */
  function AlarmAt(raw: seq<string>): nat
    requires LayoutOk(EventLog, raw)
  {
    IndexOf(Columns(EventLog, raw), "Alarm Time")
  }

  lemma {:induction false} EventStagesRow(raw: seq<string>, cells: seq<Value>, ps: Parsers)
    requires |cells| == |raw| && LayoutOk(EventLog, raw)
    ensures EventStagesKeep(RenameColumns(raw, EventRenames), Columns(EventLog, raw), AlarmAt(raw), AsDatetime(ps))(cells)
      == Keep(EventLog, raw, ps)(cells)
    ensures EventStagesShape(RenameColumns(raw, EventRenames), AlarmAt(raw), AsDatetime(ps))(cells)
      == Shape(EventLog, raw, ps)(cells)
  {
    var renamed := RenameColumns(raw, EventRenames);
    var cols := Columns(EventLog, raw);
    var p := AlarmAt(raw);
    var kc := KeepCells(renamed, cells, EventDrops);
    var cleaned := kc[p := AsDatetime(ps)(kc[p])];
    var present, coerced := !HasNull(cols, kc, EventRequired), !HasNull(cols, cleaned, ["Alarm Time"]);
    KeepShapeApply(EventLog, raw, cells, ps);
    assert Keep(EventLog, raw, ps)(cells) == Kept(EventLog, raw, cells, ps);
    EventStagesKeepApply(renamed, cols, cells, p, AsDatetime(ps));
    assert EventStagesKeep(renamed, cols, p, AsDatetime(ps))(cells) == (present && coerced);
    EventRow(raw, cells, ps);
    assert Kept(EventLog, raw, cells, ps) == (present && coerced);
    EventStagesShapeApply(renamed, cells, p, AsDatetime(ps));
  }

  /** The staged computation of data1_clean is the one-pass reference. */
  lemma {:induction false} EventStages(raw: seq<string>, rows: seq<Row>, ps: Parsers)
    requires Fits(rows, |raw|) && LayoutOk(EventLog, raw)
    ensures var renamed := RenameColumns(raw, EventRenames);
      var cols := Columns(EventLog, raw);
      var projected := ProjectRows(rows, renamed, EventDrops);
      var present := DropNaRows(projected, cols, EventRequired);
      var coerced := SetCellRows(present, AlarmAt(raw), AsDatetime(ps));
      Fits(coerced, |cols|) && DropNaRows(coerced, cols, ["Alarm Time"]) == CleanRows(EventLog, raw, rows, ps)
  {
    var renamed := RenameColumns(raw, EventRenames);
    var cols := Columns(EventLog, raw);
    var p := AlarmAt(raw);
    var shape, keep := EventStagesShape(renamed, p, AsDatetime(ps)), EventStagesKeep(renamed, cols, p, AsDatetime(ps));
    EventStagesFused(raw, rows, ps);
    forall x | x in rows
      ensures keep(x.cells) == Keep(EventLog, raw, ps)(x.cells)
      ensures shape(x.cells) == Shape(EventLog, raw, ps)(x.cells)
    {
      EventStagesRow(raw, x.cells, ps);
    }
    SelectRowsAgree(rows, shape, keep, Shape(EventLog, raw, ps), Keep(EventLog, raw, ps));
  }

  /**
    data1_clean (node.py:12-25) on the sheet as read after the five-row skip.
    It fails with the KeyError of dropna when "Node Alias" or "Alarm Time" is
    not a column, or with the coercion's error when "Alarm Time" names several
    columns; otherwise it yields the one-pass reference.
  */
  method Data1Clean(raw: Table, ps: Parsers) returns (r: Result<Table>)
    requires Wf(raw)
    ensures r.Ok? <==> LayoutOk(EventLog, raw.columns)
    ensures var cols := Columns(EventLog, raw.columns);
      MissingFrom(cols, EventRequired) != [] ==> r == Err(MissingColumns(MissingFrom(cols, EventRequired)))
    ensures var cols := Columns(EventLog, raw.columns);
      "Node Alias" in cols && Count(cols, "Alarm Time") > 1 ==> r == Err(DuplicateColumn("Alarm Time"))
    ensures r.Ok? ==> r.value == Table(Columns(EventLog, raw.columns), CleanRows(EventLog, raw.columns, raw.rows, ps))
  {
    var df := Rename(raw, EventRenames);
    df := DropColumns(df, EventDrops);
    df :- DropNa(df, EventRequired);
    df :- SetColumn(df, "Alarm Time", AsDatetime(ps));
    // "Alarm Time" is a column by now, so this dropna cannot fail.
    df := DropNa(df, ["Alarm Time"]).value;
    EventStages(raw.columns, raw.rows, ps);
    r := Ok(df);
  }

  // ---------------------------------------------------------------------------
  // data2_clean
  // ---------------------------------------------------------------------------

  /** Where a measure sits in a cleaned sample table. */
  function MeasureAt(raw: seq<string>, m: string): nat
    requires LayoutOk(MetricSample, raw) && m in Measures
  {
    IndexOf(Columns(MetricSample, raw), m)
  }

  /**
    The four row stages of data2_clean after the header rows are gone, fused
    into one selection: project, coerce columns a, b and c by f, dropna on
    the measures.
  */
  function MetricStagesShape(raw: seq<string>, a: nat, b: nat, c: nat, f: Value -> Value): seq<Value> -> seq<Value> {
    Then(Then(Then(Then(Project(raw, MetricDrops), SetAt(a, f)), SetAt(b, f)), SetAt(c, f)), Unchanged())
  }

  function MetricStagesKeep(raw: seq<string>, cols: seq<string>, a: nat, b: nat, c: nat, f: Value -> Value): seq<Value> -> bool {
    After(Then(Then(Then(Project(raw, MetricDrops), SetAt(a, f)), SetAt(b, f)), SetAt(c, f)), NoNull(cols, Measures))
  }

  /** Coercing column p keeps every row's width. */
  lemma {:induction false} SetCellRowsFits(rows: seq<Row>, p: nat, f: Value -> Value, width: nat)
    requires Fits(rows, width) && p < width
    ensures Fits(SetCellRows(rows, p, f), width)
  {
    var out := SetCellRows(rows, p, f);
    forall x | x in out ensures |x.cells| == width {
      var k :| 0 <= k < |out| && out[k] == x;
      assert rows[k] in rows;
    }
  }

  /** The sample rows after the projection and the three numeric coercions, before the dropna. */
  function CoercedSamples(raw: seq<string>, rows: seq<Row>, ps: Parsers): (r: seq<Row>)
    requires Fits(rows, |raw|) && LayoutOk(MetricSample, raw)
    ensures Fits(r, |Columns(MetricSample, raw)|)
  {
    var width := |Columns(MetricSample, raw)|;
    var a, b, c := MeasureAt(raw, "Packet Loss(%)"), MeasureAt(raw, "Availability"), MeasureAt(raw, "Latency(msec)");
    var f := AsNumeric(ps);
    var projected := ProjectRows(rows, raw, MetricDrops);
    var s1 := SetCellRows(projected, a, f);
    SetCellRowsFits(projected, a, f, width);
    var s2 := SetCellRows(s1, b, f);
    SetCellRowsFits(s1, b, f, width);
    SetCellRowsFits(s2, c, f, width);
    SetCellRows(s2, c, f)
  }

  lemma {:induction false} MetricStagesFused(raw: seq<string>, rows: seq<Row>, ps: Parsers)
    requires Fits(rows, |raw|) && LayoutOk(MetricSample, raw)
    ensures var cols := Columns(MetricSample, raw);
      var a, b, c := MeasureAt(raw, "Packet Loss(%)"), MeasureAt(raw, "Availability"), MeasureAt(raw, "Latency(msec)");
      DropNaRows(CoercedSamples(raw, rows, ps), cols, Measures)
         == SelectRows(rows, MetricStagesShape(raw, a, b, c, AsNumeric(ps)), MetricStagesKeep(raw, cols, a, b, c, AsNumeric(ps)))
  {
    var cols := Columns(MetricSample, raw);
    var a, b, c := MeasureAt(raw, "Packet Loss(%)"), MeasureAt(raw, "Availability"), MeasureAt(raw, "Latency(msec)");
    var f := AsNumeric(ps);
    var projected := ProjectRows(rows, raw, MetricDrops);
    var s1 := SetCellRows(projected, a, f);
    SetCellRowsFits(projected, a, f, |cols|);
    var s2 := SetCellRows(s1, b, f);
    SetCellRowsFits(s1, b, f, |cols|);
    var s3 := SetCellRows(s2, c, f);
    SetCellRowsFits(s2, c, f, |cols|);
    ProjectRowsSelects(rows, raw, MetricDrops);
    SetCellRowsSelects(projected, a, f);
    SetCellRowsSelects(s1, b, f);
    SetCellRowsSelects(s2, c, f);
    DropNaRowsSelects(s3, cols, Measures);
    var project := Project(raw, MetricDrops);
    SelectRowsFuseMaps(rows, project, SetAt(a, f));
    var t1 := Then(project, SetAt(a, f));
    SelectRowsFuseMaps(rows, t1, SetAt(b, f));
    var t2 := Then(t1, SetAt(b, f));
    SelectRowsFuseMaps(rows, t2, SetAt(c, f));
    var t3 := Then(t2, SetAt(c, f));
    SelectRowsFuseMap(rows, t3, Unchanged(), NoNull(cols, Measures));
  }

  /** The fused reshaping on one row of the sheet's width. */
  lemma {:induction false} MetricStagesShapeApply(raw: seq<string>, cells: seq<Value>, a: nat, b: nat, c: nat, f: Value -> Value)
    requires |cells| == |raw|
    ensures MetricStagesShape(raw, a, b, c, f)(cells)
      == SetAt(c, f)(SetAt(b, f)(SetAt(a, f)(KeepCells(raw, cells, MetricDrops))))
  {
    var project := Project(raw, MetricDrops);
    var t1 := Then(project, SetAt(a, f));
    var t2 := Then(t1, SetAt(b, f));
    var t3 := Then(t2, SetAt(c, f));
    ThenApply(t3, Unchanged(), cells);
    ThenApply(t2, SetAt(c, f), cells);
    ThenApply(t1, SetAt(b, f), cells);
    ThenApply(project, SetAt(a, f), cells);
  }

  lemma {:induction false} MetricStagesRow(raw: seq<string>, cells: seq<Value>, ps: Parsers)
    requires |cells| == |raw| && LayoutOk(MetricSample, raw)
    ensures MetricStagesKeep(raw, Columns(MetricSample, raw), MeasureAt(raw, "Packet Loss(%)"), MeasureAt(raw, "Availability"),
                             MeasureAt(raw, "Latency(msec)"), AsNumeric(ps))(cells)
      == Keep(MetricSample, raw, ps)(cells)
    ensures MetricStagesShape(raw, MeasureAt(raw, "Packet Loss(%)"), MeasureAt(raw, "Availability"),
                              MeasureAt(raw, "Latency(msec)"), AsNumeric(ps))(cells)
      == Shape(MetricSample, raw, ps)(cells)
  {
    var cols := Columns(MetricSample, raw);
    var a, b, c := MeasureAt(raw, "Packet Loss(%)"), MeasureAt(raw, "Availability"), MeasureAt(raw, "Latency(msec)");
    KeepShapeApply(MetricSample, raw, cells, ps);
    MetricStagesShapeApply(raw, cells, a, b, c, AsNumeric(ps));
    var t3 := Then(Then(Then(Project(raw, MetricDrops), SetAt(a, AsNumeric(ps))), SetAt(b, AsNumeric(ps))), SetAt(c, AsNumeric(ps)));
    AfterApply(t3, NoNull(cols, Measures), cells);
    ThenApply(t3, Unchanged(), cells);
    assert MetricStagesShape(raw, a, b, c, AsNumeric(ps))(cells) == CleanCells(MetricSample, raw, cells, ps);
    assert NoNull(cols, Measures)(CleanCells(MetricSample, raw, cells, ps)) == Kept(MetricSample, raw, cells, ps);
  }

  /** The staged computation of data2_clean, after the header rows are gone, is the one-pass reference. */
  lemma {:induction false} MetricStages(raw: seq<string>, rows: seq<Row>, ps: Parsers)
    requires Fits(rows, |raw|) && LayoutOk(MetricSample, raw)
    ensures DropNaRows(CoercedSamples(raw, rows, ps), Columns(MetricSample, raw), Measures) == CleanRows(MetricSample, raw, rows, ps)
  {
    var cols := Columns(MetricSample, raw);
    var a, b, c := MeasureAt(raw, "Packet Loss(%)"), MeasureAt(raw, "Availability"), MeasureAt(raw, "Latency(msec)");
    var shape, keep := MetricStagesShape(raw, a, b, c, AsNumeric(ps)), MetricStagesKeep(raw, cols, a, b, c, AsNumeric(ps));
    MetricStagesFused(raw, rows, ps);
    forall x | x in rows
      ensures keep(x.cells) == Keep(MetricSample, raw, ps)(x.cells)
      ensures shape(x.cells) == Shape(MetricSample, raw, ps)(x.cells)
    {
      MetricStagesRow(raw, x.cells, ps);
    }
    SelectRowsAgree(rows, shape, keep, Shape(MetricSample, raw, ps), Keep(MetricSample, raw, ps));
  }

  lemma {:induction false} HeaderIsRange()
    ensures Range(5) == HeaderLabels
  {
    var r := Range(5);
    assert r[0] == 0 && r[1] == 1 && r[2] == 2 && r[3] == 3 && r[4] == 4;
  }

  /** Under the default index, the labels absent from a frame of n rows are those from n on. */
  lemma {:induction false} AbsentHeaderLabels(rows: seq<Row>)
    requires DefaultIndex(rows)
    ensures forall l :: l in AbsentLabels(rows, HeaderLabels) <==> |rows| <= l < 5
  {
    var absent := AbsentLabels(rows, HeaderLabels);
    forall l | 0 <= l < |rows| ensures HasLabel(rows, l) {
      assert rows[l] in rows;
    }
    forall l ensures l in absent <==> |rows| <= l < 5 {
      if l in absent {
        var i :| 0 <= i < |absent| && absent[i] == l;
        assert l in HeaderLabels && !HasLabel(rows, l);
      }
      if |rows| <= l < 5 {
        assert l in HeaderLabels;
        forall x | x in rows ensures x.index != l {
          var i :| 0 <= i < |rows| && rows[i] == x;
        }
      }
    }
  }

  /**
    data2_clean (node.py:27-42) on the sheet as read (default index). Fewer
    than five rows make the label drop fail; otherwise the first coercion whose
    column is missing or repeated fails; otherwise it yields the one-pass
    reference over the rows after the header, renumbered from 0.
  */
  method Data2Clean(raw: Table, ps: Parsers) returns (r: Result<Table>)
    requires Wf(raw) && DefaultIndex(raw.rows)
    ensures |raw.rows| < 5 ==>
      (r.Err? && r.error.MissingLabels? && forall l :: l in r.error.labels <==> |raw.rows| <= l < 5)
    ensures |raw.rows| >= 5 ==>
      (r.Ok? <==> LayoutOk(MetricSample, raw.columns))
      && (r.Err? ==> Some(r.error) == MeasureError(Columns(MetricSample, raw.columns)))
    ensures r.Ok? ==>
      (r.value == Table(Columns(MetricSample, raw.columns), CleanRows(MetricSample, raw.columns, Relabel(raw.rows[5..], 0), ps)))
  {
    AbsentHeaderLabels(raw.rows);
    var df :- DropLabels(raw, HeaderLabels);
    assert df == Table(raw.columns, raw.rows[5..]) by {
      assert HasLabel(raw.rows, 4);
      DefaultLabels(raw.rows, 4);
      KeepUnlabelledPrefix(raw.rows, 0, 5);
      HeaderIsRange();
    }
    df := ResetIndex(df);
    r := CleanSamples(df, ps);
  }

  /**
    The stages of data2_clean after the header rows are gone: drop the
    unused columns, rename, coerce the three measures to numbers and drop
    the rows where any of them is missing.
  */
  method CleanSamples(df0: Table, ps: Parsers) returns (r: Result<Table>)
    requires Wf(df0)
    ensures r.Ok? <==> LayoutOk(MetricSample, df0.columns)
    ensures r.Err? ==> Some(r.error) == MeasureError(Columns(MetricSample, df0.columns))
    ensures r.Ok? ==> r.value == Table(Columns(MetricSample, df0.columns), CleanRows(MetricSample, df0.columns, df0.rows, ps))
  {
    var df := DropColumns(df0, MetricDrops);
    df := Rename(df, MetricRenames);
    df :- SetColumn(df, "Packet Loss(%)", AsNumeric(ps));
    df :- SetColumn(df, "Availability", AsNumeric(ps));
    df :- SetColumn(df, "Latency(msec)", AsNumeric(ps));
    // The three measures are columns by now, so this dropna cannot fail.
    df := DropNa(df, Measures).value;
    MetricStages(df0.columns, df0.rows, ps);
    r := Ok(df);
  }

  // ---------------------------------------------------------------------------
  // Properties of the cleaned tables
  // ---------------------------------------------------------------------------

  /** No label is renamed into one of the "Unnamed" labels the event mapping renames. */
  lemma {:induction false} EventRenameLabel(x: string)
    ensures RenameLabel(EventRenames, x) !in EventRenames
  {
    if x in EventRenames {
      var y := EventRenames[x];
      assert y in {"Sl.no", "IP Address", "Event", "Alarm Time", "Node Alias"};
    }
  }

  /** A kept sample label is not renamed into a dropped or an "Unnamed" label. */
  lemma {:induction false} MetricRenameLabel(x: string)
    requires x !in MetricDrops
    ensures RenameLabel(MetricRenames, x) !in MetricRenames && RenameLabel(MetricRenames, x) !in MetricDrops
  {
    if x in MetricRenames {
      var y := MetricRenames[x];
      assert y in {"Node Alias", "IP Address", "Availability", "Latency(msec)", "Packet Loss(%)"};
    }
  }

  /**
    The columns of a cleaned event table: the dropped labels are gone, the
    "Unnamed" labels are renamed away, a renamed label appears under its new
    name, and every other label of the sheet is kept as it is.
  */
  lemma {:induction false} EventColumns(raw: seq<string>)
    ensures forall c | c in EventDrops :: c !in Columns(EventLog, raw)
    ensures forall c | c in EventRenames :: c !in Columns(EventLog, raw)
    ensures forall c | c in raw && c in EventRenames && EventRenames[c] !in EventDrops :: EventRenames[c] in Columns(EventLog, raw)
    ensures forall c | c in raw && c !in EventRenames && c !in EventDrops :: c in Columns(EventLog, raw)
    ensures forall c | c in Columns(EventLog, raw) :: (c in raw && c !in EventRenames) || c in EventRenames.Values
  {
    var renamed := RenameColumns(raw, EventRenames);
    RenamedLabels(raw, EventRenames);
    forall c | c in raw ensures RenameLabel(EventRenames, c) in renamed {
      var i :| 0 <= i < |raw| && raw[i] == c;
    }
    forall c | c in renamed ensures c !in EventRenames {
      var i :| 0 <= i < |raw| && RenameLabel(EventRenames, raw[i]) == c;
      EventRenameLabel(raw[i]);
    }
  }

  /**
    The columns of a cleaned sample table: "Unnamed: 2" and "Unnamed: 3" are
    gone, the renamed labels appear under their new names, and every other
    label of the sheet is kept as it is.
  */
  lemma {:induction false} SampleColumns(raw: seq<string>)
    ensures forall c | c in MetricDrops :: c !in Columns(MetricSample, raw)
    ensures forall c | c in MetricRenames :: c !in Columns(MetricSample, raw)
    ensures forall c | c in raw && c in MetricRenames :: MetricRenames[c] in Columns(MetricSample, raw)
    ensures forall c | c in raw && c !in MetricRenames && c !in MetricDrops :: c in Columns(MetricSample, raw)
    ensures forall c | c in Columns(MetricSample, raw) :: (c in raw && c !in MetricRenames) || c in MetricRenames.Values
  {
    var kept := KeepColumns(raw, MetricDrops);
    RenamedLabels(kept, MetricRenames);
    forall c | c in kept ensures RenameLabel(MetricRenames, c) in Columns(MetricSample, raw) {
      var i :| 0 <= i < |kept| && kept[i] == c;
    }
    forall c | c in Columns(MetricSample, raw) ensures c !in MetricRenames && c !in MetricDrops {
      var i :| 0 <= i < |kept| && RenameLabel(MetricRenames, kept[i]) == c;
      MetricRenameLabel(kept[i]);
    }
  }

  /**
    A column the event cleaner neither renames, drops, coerces nor renames
    another column into keeps the raw row's value.
  */
  lemma {:induction false} EventCellCarried(raw: seq<string>, cells: seq<Value>, ps: Parsers, c: string)
    requires |cells| == |raw| && LayoutOk(EventLog, raw)
    requires c in raw && c !in EventRenames && c !in EventDrops && c != "Alarm Time" && c !in EventRenames.Values
    ensures c in Columns(EventLog, raw)
    ensures Cell(Columns(EventLog, raw), CleanCells(EventLog, raw, cells, ps), c) == Cell(raw, cells, c)
  {
    var renamed := RenameColumns(raw, EventRenames);
    forall i | 0 <= i < |raw| ensures RenameLabel(EventRenames, raw[i]) == c ==> raw[i] == c {
      RenamedOnlyFrom(EventRenames, raw[i], c);
    }
    RenameIndex(raw, EventRenames, c, c);
    KeepCellsCell(renamed, cells, EventDrops, c);
    var cols := Columns(EventLog, raw);
    var kept := KeepCells(renamed, cells, EventDrops);
    var p, q := IndexOf(cols, "Alarm Time"), IndexOf(cols, c);
    assert cols[p] != cols[q];
    assert CleanCells(EventLog, raw, cells, ps) == kept[p := AsDatetime(ps)(kept[p])];
    assert Cell(cols, kept, c) == Cell(raw, cells, c);
  }

  /** A label that is neither renamed nor a new name is only ever its own rename. */
  lemma {:induction false} RenamedOnlyFrom(renames: map<string, string>, x: string, c: string)
    requires c !in renames && c !in renames.Values
    ensures RenameLabel(renames, x) == c ==> x == c
  {
    if x in renames {
      assert renames[x] in renames.Values;
    }
  }

  /**
    A column the sample cleaner neither renames, drops, coerces nor renames
    another column into keeps the raw row's value.
  */
  lemma {:induction false} SampleCellCarried(raw: seq<string>, cells: seq<Value>, ps: Parsers, c: string)
    requires |cells| == |raw| && LayoutOk(MetricSample, raw)
    requires c in raw && c !in MetricRenames && c !in MetricDrops && c !in Measures && c !in MetricRenames.Values
    ensures c in Columns(MetricSample, raw)
    ensures Cell(Columns(MetricSample, raw), CleanCells(MetricSample, raw, cells, ps), c) == Cell(raw, cells, c)
  {
    var kept := KeepColumns(raw, MetricDrops);
    KeepCellsCell(raw, cells, MetricDrops, c);
    RenameIndex(kept, MetricRenames, c, c);
    var cols := Columns(MetricSample, raw);
    var a, b, d := IndexOf(cols, "Packet Loss(%)"), IndexOf(cols, "Availability"), IndexOf(cols, "Latency(msec)");
    var p := IndexOf(cols, c);
    assert cols[a] != cols[p] && cols[b] != cols[p] && cols[d] != cols[p];
    SetAtElsewhere(a, b, d, p, AsNumeric(ps), KeepCells(raw, cells, MetricDrops));
  }

  /** Three cell updates leave every other position alone. */
  lemma {:induction false} SetAtElsewhere(a: nat, b: nat, d: nat, p: nat, f: Value -> Value, kc: seq<Value>)
    requires a < |kc| && b < |kc| && d < |kc| && p < |kc| && p != a && p != b && p != d
    ensures SetAt(d, f)(SetAt(b, f)(SetAt(a, f)(kc)))[p] == kc[p]
  {
    SetAtApply(a, f, kc);
    SetAtApply(b, f, SetAt(a, f)(kc));
    SetAtApply(d, f, SetAt(b, f)(SetAt(a, f)(kc)));
  }

  /** A cleaned event row names a node and carries a parsed alarm timestamp. */
  predicate EventRowOk(cols: seq<string>, cells: seq<Value>) {
    |cells| == |cols| && "Node Alias" in cols && "Alarm Time" in cols
    && !Cell(cols, cells, "Node Alias").Null? && Cell(cols, cells, "Alarm Time").Time?
  }

  /** A cleaned sample row carries three parsed numbers. */
  predicate SampleRowOk(cols: seq<string>, cells: seq<Value>) {
    |cells| == |cols| && (forall m | m in Measures :: m in cols)
    && Cell(cols, cells, "Packet Loss(%)").Number? && Cell(cols, cells, "Availability").Number?
    && Cell(cols, cells, "Latency(msec)").Number?
  }

  /** Every row data1_clean yields names a node and carries a parsed alarm timestamp. */
  lemma {:induction false} EventRowsComplete(raw: Table, ps: Parsers)
    requires Wf(raw) && LayoutOk(EventLog, raw.columns)
    ensures forall x | x in CleanRows(EventLog, raw.columns, raw.rows, ps) :: EventRowOk(Columns(EventLog, raw.columns), x.cells)
  {
    var cols, out := Columns(EventLog, raw.columns), CleanRows(EventLog, raw.columns, raw.rows, ps);
    CleanRowsComplete(EventLog, raw.columns, raw.rows, ps);
    forall x | x in out ensures EventRowOk(cols, x.cells) {
      var k :| 0 <= k < |out| && out[k] == x;
      assert cols[IndexOf(cols, "Node Alias")] in EventRequired;
    }
  }

  /** Every row data2_clean yields carries three parsed numbers. */
  lemma {:induction false} SampleRowsComplete(raw: Table, ps: Parsers)
    requires Wf(raw) && |raw.rows| >= 5 && LayoutOk(MetricSample, raw.columns)
    ensures forall x | x in CleanRows(MetricSample, raw.columns, Relabel(raw.rows[5..], 0), ps) ::
      SampleRowOk(Columns(MetricSample, raw.columns), x.cells)
  {
    var cols, body := Columns(MetricSample, raw.columns), Relabel(raw.rows[5..], 0);
    assert Fits(body, |raw.columns|) by {
      forall x | x in body ensures |x.cells| == |raw.columns| {
        var i :| 0 <= i < |body| && body[i] == x;
        assert raw.rows[5..][i] in raw.rows;
      }
    }
    var out := CleanRows(MetricSample, raw.columns, body, ps);
    CleanRowsComplete(MetricSample, raw.columns, body, ps);
    forall x | x in out ensures SampleRowOk(cols, x.cells) {
      var k :| 0 <= k < |out| && out[k] == x;
    }
  }
}
