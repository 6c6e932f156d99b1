/**
  The reconciliation step of node.py (line 53): a pandas left merge of the
  cleaned event table with the "IP Address" and "Availability" columns of the
  cleaned sample table, on "IP Address".

  Each event row is kept, in order, once per sample row that shares its key
  (in sample-table order), or once with missing availability when none does.
  Missing keys match each other, as they do in pandas. The merged frame is
  renumbered from 0.
*/
module Reconcile {
  import opened Frame

  const Key: string := "IP Address"
  const Attached: string := "Availability"
  /** The labels pandas' default suffixes give "Availability" when both sides have it. */
  const LeftSuffixed: string := "Availability_x"
  const RightSuffixed: string := "Availability_y"

  // ---------------------------------------------------------------------------
  // Positions and the sample side
  // ---------------------------------------------------------------------------

  /** The positions, from `from` on, of the columns labelled `name`, in order. */
  function Positions(cols: seq<string>, name: string, from: nat): (r: seq<nat>)
    ensures forall k | 0 <= k < |r| :: from <= r[k] < |cols| && cols[r[k]] == name
    ensures forall p | from <= p < |cols| && cols[p] == name :: p in r
    ensures forall a, b | 0 <= a < b < |r| :: r[a] < r[b]
    decreases |cols| - from
  {
    if from >= |cols| then []
    else
      var rest := Positions(cols, name, from + 1);
      if cols[from] == name then [from] + rest else rest
  }

  /** There is one position per column labelled `name`. */
  lemma {:induction false} PositionsCount(cols: seq<string>, name: string, from: nat)
    requires from <= |cols|
    ensures |Positions(cols, name, from)| == Count(cols[from..], name)
    decreases |cols| - from
  {
    if from < |cols| {
      PositionsCount(cols, name, from + 1);
      assert cols[from..][1..] == cols[from + 1..];
    }
  }

  /** The number of "Availability" columns the selection `df2[['IP Address', 'Availability']]` carries. */
  function Width(right: seq<string>): nat {
    |Positions(right, Attached, 0)|
  }

  /** The cells of `cells` at positions `ps`. */
  function Pick(cells: seq<Value>, ps: seq<nat>): (r: seq<Value>)
    requires forall k | 0 <= k < |ps| :: ps[k] < |cells|
    ensures |r| == |ps|
  {
    seq(|ps|, k requires 0 <= k < |ps| => cells[ps[k]])
  }

  /** One sample row as the merge sees it: its key and its "Availability" cells. */
  datatype Entry = Entry(key: Value, payload: seq<Value>)

  function Entries(right: Table): (r: seq<Entry>)
    requires Wf(right) && Key in right.columns
    ensures |r| == |right.rows|
    ensures forall i | 0 <= i < |r| ::
      r[i].key == Cell(right.columns, right.rows[i].cells, Key)
      && r[i].payload == Pick(right.rows[i].cells, Positions(right.columns, Attached, 0))
  {
    var ps := Positions(right.columns, Attached, 0);
    seq(|right.rows|, i requires 0 <= i < |right.rows| =>
      Entry(Cell(right.columns, right.rows[i].cells, Key), Pick(right.rows[i].cells, ps)))
  }

  predicate PayloadWidth(entries: seq<Entry>, m: nat) {
    forall e | e in entries :: |e.payload| == m
  }

  // ---------------------------------------------------------------------------
  // Matching and joining
  // ---------------------------------------------------------------------------

  /** The positions, from `from` on, of the entries keyed `key`, in order. */
  function MatchIndices(key: Value, entries: seq<Entry>, from: nat): (r: seq<nat>)
    ensures forall k | 0 <= k < |r| :: from <= r[k] < |entries| && entries[r[k]].key == key
    ensures forall i | from <= i < |entries| && entries[i].key == key :: i in r
    ensures forall a, b | 0 <= a < b < |r| :: r[a] < r[b]
    decreases |entries| - from
  {
    if from >= |entries| then []
    else
      var rest := MatchIndices(key, entries, from + 1);
      if entries[from].key == key then [from] + rest else rest
  }

  /** How many merged rows one event row becomes: one per match, and one when nothing matches. */
  function Fanout(key: Value, entries: seq<Entry>): (n: nat)
    ensures n >= 1
  {
    var k := |MatchIndices(key, entries, 0)|;
    if k == 0 then 1 else k
  }

  function Nulls(m: nat): (r: seq<Value>)
    ensures |r| == m && forall k | 0 <= k < m :: r[k] == Null
  {
    seq(m, k => Null)
  }

  /** The merged rows one event row yields. */
  function JoinCells(cells: seq<Value>, key: Value, entries: seq<Entry>, m: nat): (r: seq<seq<Value>>)
    ensures |r| == Fanout(key, entries)
  {
    var js := MatchIndices(key, entries, 0);
    if js == [] then [cells + Nulls(m)]
    else seq(|js|, j requires 0 <= j < |js| => cells + entries[js[j]].payload)
  }

  /** The merged rows, event row by event row; `p` is where the key sits. */
  function JoinRows(rows: seq<Row>, p: nat, entries: seq<Entry>, m: nat): (r: seq<seq<Value>>)
    requires forall x | x in rows :: p < |x.cells|
  {
    if rows == [] then []
    else JoinCells(rows[0].cells, rows[0].cells[p], entries, m) + JoinRows(rows[1..], p, entries, m)
  }

  /** Where the merged rows of event row `i` start: the fan-outs of the rows before it, added up. */
  function Offset(rows: seq<Row>, p: nat, entries: seq<Entry>, i: nat): nat
    requires i <= |rows| && forall x | x in rows :: p < |x.cells|
  {
    if i == 0 then 0
    else Fanout(rows[0].cells[p], entries) + Offset(rows[1..], p, entries, i - 1)
  }

  /** Every merged row has the event columns followed by the attached ones. */
  lemma {:induction false} JoinRowsWidth(rows: seq<Row>, p: nat, entries: seq<Entry>, w: nat, m: nat)
    requires Fits(rows, w) && p < w && PayloadWidth(entries, m)
    ensures forall c | c in JoinRows(rows, p, entries, m) :: |c| == w + m
  {
    if rows != [] {
      var js := MatchIndices(rows[0].cells[p], entries, 0);
      var head := JoinCells(rows[0].cells, rows[0].cells[p], entries, m);
      assert rows[0] in rows;
      forall j | 0 <= j < |js| ensures |head[j]| == w + m {
        assert entries[js[j]] in entries;
      }
      JoinRowsWidth(rows[1..], p, entries, w, m);
    }
  }

  /** The next event row's block starts right after this one's. */
  lemma {:induction false} OffsetStep(rows: seq<Row>, p: nat, entries: seq<Entry>, i: nat)
    requires i < |rows| && forall x | x in rows :: p < |x.cells|
    ensures Offset(rows, p, entries, i + 1) == Offset(rows, p, entries, i) + Fanout(rows[i].cells[p], entries)
  {
    if i > 0 {
      OffsetStep(rows[1..], p, entries, i - 1);
    }
  }

  /** Blocks come in event-row order and do not overlap. */
  lemma {:induction false} OffsetMonotone(rows: seq<Row>, p: nat, entries: seq<Entry>, i: nat, k: nat)
    requires i < k <= |rows| && forall x | x in rows :: p < |x.cells|
    ensures Offset(rows, p, entries, i) + Fanout(rows[i].cells[p], entries) <= Offset(rows, p, entries, k)
    decreases k - i
  {
    OffsetStep(rows, p, entries, i);
    if i + 1 < k {
      OffsetMonotone(rows, p, entries, i + 1, k);
    }
  }

  lemma {:induction false} JoinRowsLength(rows: seq<Row>, p: nat, entries: seq<Entry>, m: nat)
    requires forall x | x in rows :: p < |x.cells|
    ensures |JoinRows(rows, p, entries, m)| == Offset(rows, p, entries, |rows|)
  {
    if rows != [] {
      JoinRowsLength(rows[1..], p, entries, m);
    }
  }

  /** The merged rows are the event rows' blocks laid end to end: block `i` starts at Offset(i). */
  lemma {:induction false} JoinRowsAt(rows: seq<Row>, p: nat, entries: seq<Entry>, m: nat, i: nat, j: nat)
    requires i < |rows| && forall x | x in rows :: p < |x.cells|
    requires j < Fanout(rows[i].cells[p], entries)
    ensures Offset(rows, p, entries, i) + j < |JoinRows(rows, p, entries, m)|
    ensures JoinRows(rows, p, entries, m)[Offset(rows, p, entries, i) + j]
      == JoinCells(rows[i].cells, rows[i].cells[p], entries, m)[j]
  {
    var blocks := Blocks(rows, p, entries, m);
    JoinRowsFlatten(rows, p, entries, m);
    OffsetStart(rows, p, entries, m, i);
    FlattenAt(blocks, i, j);
  }

  /** Each event row's block of merged rows. */
  function Blocks(rows: seq<Row>, p: nat, entries: seq<Entry>, m: nat): (r: seq<seq<seq<Value>>>)
    requires forall x | x in rows :: p < |x.cells|
    ensures |r| == |rows|
    ensures forall i | 0 <= i < |rows| :: r[i] == JoinCells(rows[i].cells, rows[i].cells[p], entries, m)
  {
    seq(|rows|, i requires 0 <= i < |rows| => JoinCells(rows[i].cells, rows[i].cells[p], entries, m))
  }

  /** Blocks laid end to end. */
  function Flatten(blocks: seq<seq<seq<Value>>>): seq<seq<Value>> {
    if blocks == [] then [] else blocks[0] + Flatten(blocks[1..])
  }

  /** Where block `i` starts once laid end to end. */
  function Start(blocks: seq<seq<seq<Value>>>, i: nat): nat
    requires i <= |blocks|
  {
    if i == 0 then 0 else |blocks[0]| + Start(blocks[1..], i - 1)
  }

  lemma {:induction false} FlattenAt(blocks: seq<seq<seq<Value>>>, i: nat, j: nat)
    requires i < |blocks| && j < |blocks[i]|
    ensures Start(blocks, i) + j < |Flatten(blocks)|
    ensures Flatten(blocks)[Start(blocks, i) + j] == blocks[i][j]
  {
    if i > 0 {
      FlattenAt(blocks[1..], i - 1, j);
    }
  }

  lemma {:induction false} BlocksTail(rows: seq<Row>, p: nat, entries: seq<Entry>, m: nat)
    requires rows != [] && forall x | x in rows :: p < |x.cells|
    ensures Blocks(rows, p, entries, m)[1..] == Blocks(rows[1..], p, entries, m)
  {
    var a, b := Blocks(rows, p, entries, m)[1..], Blocks(rows[1..], p, entries, m);
    forall k | 0 <= k < |b| ensures a[k] == b[k] {
      assert rows[1..][k] == rows[k + 1];
    }
  }

  lemma {:induction false} JoinRowsFlatten(rows: seq<Row>, p: nat, entries: seq<Entry>, m: nat)
    requires forall x | x in rows :: p < |x.cells|
    ensures JoinRows(rows, p, entries, m) == Flatten(Blocks(rows, p, entries, m))
  {
    if rows != [] {
      BlocksTail(rows, p, entries, m);
      JoinRowsFlatten(rows[1..], p, entries, m);
    }
  }

  lemma {:induction false} OffsetStart(rows: seq<Row>, p: nat, entries: seq<Entry>, m: nat, i: nat)
    requires i <= |rows| && forall x | x in rows :: p < |x.cells|
    ensures Offset(rows, p, entries, i) == Start(Blocks(rows, p, entries, m), i)
  {
    if i > 0 {
      BlocksTail(rows, p, entries, m);
      OffsetStart(rows[1..], p, entries, m, i - 1);
    }
  }

  /** Every event row yields at least one merged row, and exactly one each precisely when each fans out to one. */
  lemma {:induction false} OffsetCount(rows: seq<Row>, p: nat, entries: seq<Entry>)
    requires forall x | x in rows :: p < |x.cells|
    ensures Offset(rows, p, entries, |rows|) >= |rows|
    ensures Offset(rows, p, entries, |rows|) == |rows| <==>
      forall i | 0 <= i < |rows| :: Fanout(rows[i].cells[p], entries) == 1
  {
    if rows != [] {
      var rest := rows[1..];
      OffsetCount(rest, p, entries);
      assert forall i | 0 <= i < |rest| :: rest[i] == rows[i + 1];
      if Offset(rows, p, entries, |rows|) == |rows| {
        forall i | 0 <= i < |rows| ensures Fanout(rows[i].cells[p], entries) == 1 {
          if i > 0 {
            assert rows[i] == rest[i - 1];
          }
        }
      }
    }
  }

  // ---------------------------------------------------------------------------
  // pd.merge(df1_cleaned, df2_cleaned[['IP Address', 'Availability']], on='IP Address', how='left')
  // ---------------------------------------------------------------------------

  /**
    When the merge succeeds: the key names one column on each side, the
    sample side has "Availability", and suffixing the event side's
    "Availability" does not collide with an "Availability_x" it already has.
  */
  predicate Mergeable(left: seq<string>, right: seq<string>) {
    Count(right, Key) == 1 && Attached in right && Count(left, Key) == 1
    && !(Attached in left && LeftSuffixed in left)
  }

  /**
    The merged labels. Only one "IP Address" column is kept: normally the
    event side's, in place, so the event labels come first, followed by one
    label per "Availability" column of the sample side. When the event table
    has no rows (`noRows`), pandas keeps the sample side's key instead (a
    corner case of `_get_merge_keys` in pandas' reshape/merge.py that avoids
    upcasting the key): the event labels other than the key come first, then
    "IP Address", then the "Availability" labels. When the event side has its
    own "Availability", the two get the suffixes "_x" and "_y".
  */
  function MergedColumns(left: seq<string>, m: nat, noRows: bool): (r: seq<string>)
    ensures |r| == (if noRows then |KeepColumns(left, {Key})| + 1 else |left|) + m
  {
    var own := if noRows then KeepColumns(left, {Key}) else left;
    RenameColumns(own, map[Attached := LeftSuffixed])
      + (if noRows then [Key] else [])
      + seq(m, k => if Attached in left then RightSuffixed else Attached)
  }

  /** The merged rows, renumbered from 0. */
  function Renumber(cells: seq<seq<Value>>): (r: seq<Row>)
    ensures |r| == |cells| && DefaultIndex(r)
    ensures forall i | 0 <= i < |cells| :: r[i].cells == cells[i]
  {
    seq(|cells|, i requires 0 <= i < |cells| => Row(i, cells[i]))
  }

  /** The merged rows: each event row's block in turn, renumbered from 0. */
  function MergedRows(left: Table, right: Table): (r: seq<Row>)
    requires Wf(left) && Wf(right) && Key in left.columns && Key in right.columns
    ensures DefaultIndex(r) && Fits(r, |left.columns| + Width(right.columns))
  {
    var p, entries, m := IndexOf(left.columns, Key), Entries(right), Width(right.columns);
    var joined := JoinRows(left.rows, p, entries, m);
    assert PayloadWidth(entries, m) by {
      forall e | e in entries ensures |e.payload| == m {
        var i :| 0 <= i < |entries| && entries[i] == e;
      }
    }
    JoinRowsWidth(left.rows, p, entries, |left.columns|, m);
    var out := Renumber(joined);
    assert Fits(out, |left.columns| + m) by {
      forall x | x in out ensures |x.cells| == |left.columns| + m {
        var i :| 0 <= i < |out| && out[i] == x;
        assert joined[i] in joined;
      }
    }
    out
  }

  /**
    The left merge of node.py:53. The column selection on the sample side
    fails first when it lacks a label; then the key must name one column on
    the sample side and one on the event side; then the suffixes must not
    collide.
  */
  function LeftMerge(left: Table, right: Table): (r: Result<Table>)
    requires Wf(left) && Wf(right)
    ensures r.Ok? <==> Mergeable(left.columns, right.columns)
    ensures MissingFrom(right.columns, [Key, Attached]) != [] ==>
      r == Err(MissingColumns(MissingFrom(right.columns, [Key, Attached])))
    ensures Attached in right.columns && Count(right.columns, Key) > 1 ==> r == Err(DuplicateColumn(Key))
    ensures Attached in right.columns && Count(right.columns, Key) == 1 && Key !in left.columns ==>
      r == Err(MissingColumns([Key]))
    ensures Attached in right.columns && Count(right.columns, Key) == 1 && Count(left.columns, Key) > 1 ==>
      r == Err(DuplicateColumn(Key))
    ensures Attached in right.columns && Count(right.columns, Key) == 1 && Count(left.columns, Key) == 1
      && Attached in left.columns && LeftSuffixed in left.columns
      ==> r == Err(DuplicateColumn(LeftSuffixed))
    ensures r.Ok? ==> Wf(r.value) && DefaultIndex(r.value.rows)
    ensures r.Ok? ==> r.value == Table(MergedColumns(left.columns, Width(right.columns), |left.rows| == 0), MergedRows(left, right))
  {
    var missing := MissingFrom(right.columns, [Key, Attached]);
    if missing != [] then assert missing[0] in missing; Err(MissingColumns(missing))
    else if Count(right.columns, Key) > 1 then Err(DuplicateColumn(Key))
    else if Key !in left.columns then Err(MissingColumns([Key]))
    else if Count(left.columns, Key) > 1 then Err(DuplicateColumn(Key))
    else if Attached in left.columns && LeftSuffixed in left.columns then Err(DuplicateColumn(LeftSuffixed))
    else Ok(Table(MergedColumns(left.columns, Width(right.columns), |left.rows| == 0), MergedRows(left, right)))
  }

  // ---------------------------------------------------------------------------
  // Properties of the merged table
  // ---------------------------------------------------------------------------

  /** The key of event row `i`. */
  function EventKey(left: Table, i: nat): Value
    requires Wf(left) && Key in left.columns && i < |left.rows|
  {
    Cell(left.columns, left.rows[i].cells, Key)
  }

  /** The sample rows whose key equals event row `i`'s key, in sample-table order. */
  function Matching(left: Table, right: Table, i: nat): (js: seq<nat>)
    requires Wf(left) && Wf(right) && Mergeable(left.columns, right.columns) && i < |left.rows|
    ensures forall k | 0 <= k < |js| ::
      js[k] < |right.rows| && Cell(right.columns, right.rows[js[k]].cells, Key) == EventKey(left, i)
    ensures forall j | 0 <= j < |right.rows| && Cell(right.columns, right.rows[j].cells, Key) == EventKey(left, i) ::
      j in js
    ensures forall a, b | 0 <= a < b < |js| :: js[a] < js[b]
  {
    MatchIndices(EventKey(left, i), Entries(right), 0)
  }

  /** Where the block of merged rows for event row `i` starts; Slot(|left.rows|) is the end of the table. */
  function Slot(left: Table, right: Table, i: nat): nat
    requires Wf(left) && Wf(right) && Mergeable(left.columns, right.columns) && i <= |left.rows|
  {
    Offset(left.rows, IndexOf(left.columns, Key), Entries(right), i)
  }

  /** Event row `i`'s block is one step of the fan-out sum. */
  lemma {:induction false} SlotStep(left: Table, right: Table, i: nat)
    requires Wf(left) && Wf(right) && Mergeable(left.columns, right.columns) && i < |left.rows|
    ensures Slot(left, right, i + 1) == Slot(left, right, i) + Fanout(EventKey(left, i), Entries(right))
  {
    assert left.rows[i] in left.rows;
    OffsetStep(left.rows, IndexOf(left.columns, Key), Entries(right), i);
  }

  /** Merged row `j` of event row `i`'s block is the `j`-th row JoinCells makes of it. */
  lemma {:induction false} EventRowBlock(left: Table, right: Table, i: nat, j: nat)
    requires Wf(left) && Wf(right) && Mergeable(left.columns, right.columns) && i < |left.rows|
    requires j < Fanout(EventKey(left, i), Entries(right))
    ensures Slot(left, right, i) + j < |MergedRows(left, right)|
    ensures MergedRows(left, right)[Slot(left, right, i) + j].cells
      == JoinCells(left.rows[i].cells, EventKey(left, i), Entries(right), Width(right.columns))[j]
  {
    var p, entries, m := IndexOf(left.columns, Key), Entries(right), Width(right.columns);
    EventKeyAt(left, i);
    JoinRowsAt(left.rows, p, entries, m, i, j);
    MergedRowsNumbered(left, right);
    var k := Offset(left.rows, p, entries, i) + j;
    assert Slot(left, right, i) + j == k;
    assert MergedRows(left, right)[k].cells == JoinRows(left.rows, p, entries, m)[k];
  }

  /** The event key sits at the key column's position, which every event row has. */
  lemma {:induction false} EventKeyAt(left: Table, i: nat)
    requires Wf(left) && Key in left.columns && i < |left.rows|
    ensures forall x | x in left.rows :: IndexOf(left.columns, Key) < |x.cells|
    ensures EventKey(left, i) == left.rows[i].cells[IndexOf(left.columns, Key)]
  {
    assert left.rows[i] in left.rows;
  }

  /** The merged rows are the joined rows, numbered. */
  lemma {:induction false} MergedRowsNumbered(left: Table, right: Table)
    requires Wf(left) && Wf(right) && Key in left.columns && Key in right.columns
    ensures forall x | x in left.rows :: IndexOf(left.columns, Key) < |x.cells|
    ensures MergedRows(left, right)
      == Renumber(JoinRows(left.rows, IndexOf(left.columns, Key), Entries(right), Width(right.columns)))
  {
  }

  /** The merged rows of event row `i`. */
  function Block(left: Table, right: Table, i: nat): seq<Row>
    requires Wf(left) && Wf(right) && Mergeable(left.columns, right.columns) && i < |left.rows|
    requires Slot(left, right, i + 1) <= |MergedRows(left, right)|
  {
    SlotStep(left, right, i);
    MergedRows(left, right)[Slot(left, right, i)..Slot(left, right, i + 1)]
  }

  /**
    The merged rows are the event rows' blocks laid end to end, in event-row
    order, each block non-empty.
  */
  lemma {:induction false} MergeSlots(left: Table, right: Table)
    requires Wf(left) && Wf(right) && Mergeable(left.columns, right.columns)
    ensures Slot(left, right, 0) == 0 && Slot(left, right, |left.rows|) == |MergedRows(left, right)|
    ensures forall i | 0 <= i < |left.rows| :: Slot(left, right, i) < Slot(left, right, i + 1)
    ensures forall i | 0 <= i <= |left.rows| :: Slot(left, right, i) <= |MergedRows(left, right)|
  {
    SlotsEnd(left, right);
    SlotsIncrease(left, right);
    SlotsWithin(left, right);
  }

  lemma {:induction false} SlotsEnd(left: Table, right: Table)
    requires Wf(left) && Wf(right) && Mergeable(left.columns, right.columns)
    ensures Slot(left, right, 0) == 0 && Slot(left, right, |left.rows|) == |MergedRows(left, right)|
  {
    JoinRowsLength(left.rows, IndexOf(left.columns, Key), Entries(right), Width(right.columns));
  }

  lemma {:induction false} SlotsIncrease(left: Table, right: Table)
    requires Wf(left) && Wf(right) && Mergeable(left.columns, right.columns)
    ensures forall i | 0 <= i < |left.rows| :: Slot(left, right, i) < Slot(left, right, i + 1)
  {
    forall i | 0 <= i < |left.rows| ensures Slot(left, right, i) < Slot(left, right, i + 1) {
      SlotStep(left, right, i);
    }
  }

  lemma {:induction false} SlotsWithin(left: Table, right: Table)
    requires Wf(left) && Wf(right) && Mergeable(left.columns, right.columns)
    ensures forall i | 0 <= i <= |left.rows| :: Slot(left, right, i) <= |MergedRows(left, right)|
  {
    SlotsEnd(left, right);
    forall i | 0 <= i < |left.rows| ensures Slot(left, right, i) <= Slot(left, right, |left.rows|) {
      OffsetMonotone(left.rows, IndexOf(left.columns, Key), Entries(right), i, |left.rows|);
    }
  }

  /** Every event row survives: each merged row of event row `i`'s block begins with that row's cells. */
  lemma {:induction false} MergeKeepsEventRows(left: Table, right: Table)
    requires Wf(left) && Wf(right) && Mergeable(left.columns, right.columns)
    ensures forall i | 0 <= i < |left.rows| ::
      Slot(left, right, i + 1) <= |MergedRows(left, right)|
      && forall x | x in Block(left, right, i) :: x.cells[..|left.columns|] == left.rows[i].cells
  {
    MergeSlots(left, right);
    forall i | 0 <= i < |left.rows|
      ensures forall x | x in Block(left, right, i) :: x.cells[..|left.columns|] == left.rows[i].cells
    {
      BlockCells(left, right, i);
    }
  }

  lemma {:induction false} BlockCells(left: Table, right: Table, i: nat)
    requires Wf(left) && Wf(right) && Mergeable(left.columns, right.columns) && i < |left.rows|
    requires Slot(left, right, i + 1) <= |MergedRows(left, right)|
    ensures forall x | x in Block(left, right, i) :: x.cells[..|left.columns|] == left.rows[i].cells
  {
    var b := Block(left, right, i);
    SlotStep(left, right, i);
    forall x | x in b ensures x.cells[..|left.columns|] == left.rows[i].cells {
      var j :| 0 <= j < |b| && b[j] == x;
      EventRowBlock(left, right, i, j);
      JoinCellsPrefix(left.rows[i].cells, EventKey(left, i), Entries(right), Width(right.columns), j);
    }
  }

  /** Every row JoinCells makes of an event row begins with its cells. */
  lemma {:induction false} JoinCellsPrefix(cells: seq<Value>, key: Value, entries: seq<Entry>, m: nat, j: nat)
    requires j < Fanout(key, entries)
    ensures JoinCells(cells, key, entries, m)[j][..|cells|] == cells
  {
    var js := MatchIndices(key, entries, 0);
    if js == [] {
      assert (cells + Nulls(m))[..|cells|] == cells;
    } else {
      assert (cells + entries[js[j]].payload)[..|cells|] == cells;
    }
  }

  /**
    An event row with no matching sample row appears once, with missing
    availability; one with k matching sample rows appears k times, once with
    each match's "Availability" cells, in sample-table order.
  */
  lemma {:induction false} MergeFanout(left: Table, right: Table, i: nat)
    requires Wf(left) && Wf(right) && Mergeable(left.columns, right.columns) && i < |left.rows|
    ensures Matching(left, right, i) == [] ==>
      Slot(left, right, i + 1) == Slot(left, right, i) + 1
      && Slot(left, right, i) < |MergedRows(left, right)|
      && MergedRows(left, right)[Slot(left, right, i)].cells == left.rows[i].cells + Nulls(Width(right.columns))
    ensures Matching(left, right, i) != [] ==>
      Slot(left, right, i + 1) == Slot(left, right, i) + |Matching(left, right, i)|
      && Slot(left, right, i + 1) <= |MergedRows(left, right)|
      && forall j | 0 <= j < |Matching(left, right, i)| ::
        MergedRows(left, right)[Slot(left, right, i) + j].cells
        == left.rows[i].cells + Pick(right.rows[Matching(left, right, i)[j]].cells, Positions(right.columns, Attached, 0))
  {
    SlotStep(left, right, i);
    var js := Matching(left, right, i);
    if js == [] {
      EventRowBlock(left, right, i, 0);
    } else {
      MatchedRow(left, right, i, |js| - 1);
      forall j | 0 <= j < |js|
        ensures Slot(left, right, i) + j < |MergedRows(left, right)|
        ensures MergedRows(left, right)[Slot(left, right, i) + j].cells
          == left.rows[i].cells + Pick(right.rows[js[j]].cells, Positions(right.columns, Attached, 0))
      {
        MatchedRow(left, right, i, j);
      }
    }
  }

  /** The `j`-th merged row of a matched event row carries the `j`-th match's "Availability" cells. */
  lemma {:induction false} MatchedRow(left: Table, right: Table, i: nat, j: nat)
    requires Wf(left) && Wf(right) && Mergeable(left.columns, right.columns) && i < |left.rows|
    requires j < |Matching(left, right, i)|
    ensures Slot(left, right, i) + j < |MergedRows(left, right)|
    ensures MergedRows(left, right)[Slot(left, right, i) + j].cells
      == left.rows[i].cells + Pick(right.rows[Matching(left, right, i)[j]].cells, Positions(right.columns, Attached, 0))
  {
    var js, entries, m := Matching(left, right, i), Entries(right), Width(right.columns);
    EventRowBlock(left, right, i, j);
    assert JoinCells(left.rows[i].cells, EventKey(left, i), entries, m)[j] == left.rows[i].cells + entries[js[j]].payload;
  }

  /**
    The merge never loses an event row, and it keeps the event count exactly
    when no event row matches more than one sample row.
  */
  lemma {:induction false} MergeCount(left: Table, right: Table)
    requires Wf(left) && Wf(right) && Mergeable(left.columns, right.columns)
    ensures |MergedRows(left, right)| >= |left.rows|
    ensures |MergedRows(left, right)| == |left.rows| <==>
      forall i | 0 <= i < |left.rows| :: |Matching(left, right, i)| <= 1
  {
    var p, entries, m := IndexOf(left.columns, Key), Entries(right), Width(right.columns);
    JoinRowsLength(left.rows, p, entries, m);
    OffsetCount(left.rows, p, entries);
    forall i | 0 <= i < |left.rows|
      ensures Fanout(left.rows[i].cells[p], entries) == 1 <==> |Matching(left, right, i)| <= 1
    {
      assert left.rows[i] in left.rows;
      assert EventKey(left, i) == left.rows[i].cells[p];
    }
  }

  /**
    With unique keys on the sample side, merged row `i` is event row `i`
    followed by the "Availability" cells of its one match, or by missing
    values when it has none.
  */
  lemma {:induction false} MergeUniqueKeys(left: Table, right: Table)
    requires Wf(left) && Wf(right) && Mergeable(left.columns, right.columns)
    requires forall a, b | 0 <= a < b < |right.rows| ::
      Cell(right.columns, right.rows[a].cells, Key) != Cell(right.columns, right.rows[b].cells, Key)
    ensures |MergedRows(left, right)| == |left.rows|
    ensures forall i | 0 <= i < |left.rows| :: |Matching(left, right, i)| <= 1
    ensures forall i | 0 <= i < |left.rows| :: MergedRows(left, right)[i].cells[..|left.columns|] == left.rows[i].cells
    ensures forall i | 0 <= i < |left.rows| ::
      MergedRows(left, right)[i].cells == left.rows[i].cells
        + (if Matching(left, right, i) == [] then Nulls(Width(right.columns))
           else Pick(right.rows[Matching(left, right, i)[0]].cells, Positions(right.columns, Attached, 0)))
  {
    var entries := Entries(right);
    assert forall a, b | 0 <= a < b < |entries| :: entries[a].key != entries[b].key;
    forall i | 0 <= i < |left.rows| ensures |Matching(left, right, i)| <= 1 {
      MatchOnce(EventKey(left, i), entries);
    }
    MergeCount(left, right);
    forall i | 0 <= i < |left.rows|
      ensures MergedRows(left, right)[i].cells == left.rows[i].cells
        + (if Matching(left, right, i) == [] then Nulls(Width(right.columns))
           else Pick(right.rows[Matching(left, right, i)[0]].cells, Positions(right.columns, Attached, 0)))
      ensures MergedRows(left, right)[i].cells[..|left.columns|] == left.rows[i].cells
    {
      UniqueKeyRow(left, right, i);
    }
  }

  /** Merged row `i` when every event row has at most one match. */
  lemma {:induction false} UniqueKeyRow(left: Table, right: Table, i: nat)
    requires Wf(left) && Wf(right) && Mergeable(left.columns, right.columns) && i < |left.rows|
    requires forall k | 0 <= k < |left.rows| :: |Matching(left, right, k)| <= 1
    ensures i < |MergedRows(left, right)|
    ensures MergedRows(left, right)[i].cells == left.rows[i].cells
      + (if Matching(left, right, i) == [] then Nulls(Width(right.columns))
         else Pick(right.rows[Matching(left, right, i)[0]].cells, Positions(right.columns, Attached, 0)))
    ensures MergedRows(left, right)[i].cells[..|left.columns|] == left.rows[i].cells
  {
    SlotIsIndex(left, right, i);
    assert |left.rows[i].cells| == |left.columns| by {
      assert left.rows[i] in left.rows;
    }
    var merged := MergedRows(left, right);
    if Matching(left, right, i) == [] {
      assert merged[i].cells == left.rows[i].cells + Nulls(Width(right.columns)) by {
        MergeFanout(left, right, i);
      }
    } else {
      assert merged[i].cells == left.rows[i].cells
        + Pick(right.rows[Matching(left, right, i)[0]].cells, Positions(right.columns, Attached, 0)) by {
        MatchedRow(left, right, i, 0);
      }
    }
  }

  /** Among entries with distinct keys, a key matches at most once. */
  lemma {:induction false} MatchOnce(key: Value, entries: seq<Entry>)
    requires forall a, b | 0 <= a < b < |entries| :: entries[a].key != entries[b].key
    ensures |MatchIndices(key, entries, 0)| <= 1
  {
    var js := MatchIndices(key, entries, 0);
    FirstTwo(js, entries, key);
  }

  /** The first two of several matches are two entries with one key. */
  lemma {:induction false} FirstTwo(js: seq<nat>, entries: seq<Entry>, key: Value)
    requires forall k | 0 <= k < |js| :: js[k] < |entries| && entries[js[k]].key == key
    requires forall a, b | 0 <= a < b < |js| :: js[a] < js[b]
    ensures |js| > 1 ==> js[0] < js[1] < |entries| && entries[js[0]].key == entries[js[1]].key
  {
  }

  /** When every event row fans out to one merged row, block `i` starts at `i`. */
  lemma {:induction false} SlotIsIndex(left: Table, right: Table, i: nat)
    requires Wf(left) && Wf(right) && Mergeable(left.columns, right.columns) && i <= |left.rows|
    requires forall k | 0 <= k < |left.rows| :: |Matching(left, right, k)| <= 1
    ensures Slot(left, right, i) == i
  {
    if i > 0 {
      SlotIsIndex(left, right, i - 1);
      SlotStep(left, right, i - 1);
      assert |Matching(left, right, i - 1)| <= 1;
    }
  }

  /**
    The merge adds only the sample side's "Availability" columns. With event
    rows, the event labels come first, unchanged except for the "_x" suffix on
    an "Availability" of their own, followed by one "Availability" (or
    "Availability_y") label per "Availability" column of the sample side.
    Without event rows, the event key moves from its place to just after the
    other event labels.
  */
  lemma {:induction false} MergeColumns(left: seq<string>, right: seq<string>, noRows: bool)
    ensures !noRows ==> |MergedColumns(left, Width(right), noRows)| == |left| + Count(right, Attached)
    ensures !noRows ==> forall k | 0 <= k < |left| ::
      MergedColumns(left, Width(right), noRows)[k] == (if left[k] == Attached then LeftSuffixed else left[k])
    ensures noRows && Count(left, Key) == 1 ==>
      |MergedColumns(left, Width(right), noRows)| == |left| + Count(right, Attached)
      && MergedColumns(left, Width(right), noRows)[|left| - 1] == Key
    ensures noRows && Count(left, Key) == 1 ==>
      MergedColumns(left, Width(right), noRows)[..|left| - 1]
        == RenameColumns(left[..IndexOf(left, Key)] + left[IndexOf(left, Key) + 1..], map[Attached := LeftSuffixed])
    ensures !noRows || Count(left, Key) == 1 ==> forall k | |left| <= k < |MergedColumns(left, Width(right), noRows)| ::
      MergedColumns(left, Width(right), noRows)[k] == (if Attached in left then RightSuffixed else Attached)
    ensures forall c | c in MergedColumns(left, Width(right), noRows) ::
      c in left || c == Key || c == Attached || c == LeftSuffixed || c == RightSuffixed
  {
    PositionsCount(right, Attached, 0);
    assert right[0..] == right;
    if !noRows {
      MergeColumnsWithRows(left, right);
    } else if Count(left, Key) == 1 {
      MergeColumnsNoRows(left, right);
    }
    MergeColumnsFrom(left, right, noRows);
  }

  lemma {:induction false} MergeColumnsWithRows(left: seq<string>, right: seq<string>)
    requires Width(right) == Count(right, Attached)
    ensures |MergedColumns(left, Width(right), false)| == |left| + Count(right, Attached)
    ensures forall k | 0 <= k < |left| ::
      MergedColumns(left, Width(right), false)[k] == (if left[k] == Attached then LeftSuffixed else left[k])
    ensures forall k | |left| <= k < |MergedColumns(left, Width(right), false)| ::
      MergedColumns(left, Width(right), false)[k] == (if Attached in left then RightSuffixed else Attached)
  {
    var own := RenameColumns(left, map[Attached := LeftSuffixed]);
    var tail := seq(Width(right), k => if Attached in left then RightSuffixed else Attached);
    assert MergedColumns(left, Width(right), false) == own + [] + tail;
  }

  lemma {:induction false} MergeColumnsNoRows(left: seq<string>, right: seq<string>)
    requires Width(right) == Count(right, Attached) && Count(left, Key) == 1
    ensures |MergedColumns(left, Width(right), true)| == |left| + Count(right, Attached)
    ensures MergedColumns(left, Width(right), true)[|left| - 1] == Key
    ensures MergedColumns(left, Width(right), true)[..|left| - 1]
      == RenameColumns(left[..IndexOf(left, Key)] + left[IndexOf(left, Key) + 1..], map[Attached := LeftSuffixed])
    ensures forall k | |left| <= k < |MergedColumns(left, Width(right), true)| ::
      MergedColumns(left, Width(right), true)[k] == (if Attached in left then RightSuffixed else Attached)
  {
    var p := IndexOf(left, Key);
    var kept := KeepColumns(left, {Key});
    assert kept == left[..p] + left[p + 1..] by {
      KeepAllBut(left, Key);
    }
    var own := RenameColumns(kept, map[Attached := LeftSuffixed]);
    var tail := seq(Width(right), k => if Attached in left then RightSuffixed else Attached);
    var merged := MergedColumns(left, Width(right), true);
    assert merged == own + [Key] + tail;
    assert |own| == |left| - 1;
    assert merged[..|left| - 1] == own;
    forall k | |left| <= k < |merged|
      ensures merged[k] == (if Attached in left then RightSuffixed else Attached)
    {
      assert merged[k] == tail[k - |left|];
    }
  }

  lemma {:induction false} MergeColumnsFrom(left: seq<string>, right: seq<string>, noRows: bool)
    ensures forall c | c in MergedColumns(left, Width(right), noRows) ::
      c in left || c == Key || c == Attached || c == LeftSuffixed || c == RightSuffixed
  {
    var own := if noRows then KeepColumns(left, {Key}) else left;
    forall c | c in MergedColumns(left, Width(right), noRows)
      ensures c in left || c == Key || c == Attached || c == LeftSuffixed || c == RightSuffixed
    {
      if Attached in left && c in RenameColumns(own, map[Attached := LeftSuffixed]) {
        var i :| 0 <= i < |own| && RenameColumns(own, map[Attached := LeftSuffixed])[i] == c;
        assert own[i] in own;
      }
    }
  }
}
