/**
  The two consumers of the merged table that hold logic: the page router
  display_page (node.py:228-235) and the "Node Alias" row selection of
  update_graphs (node.py:262-264). Both take the node alias to be the last
  '/'-separated segment of the URL path.
*/
module Routing {
  import opened Frame

  const Slash: char := '/'

  /** The path prefix of a node's details page. */
  const DetailsPrefix: string := "/details/"

  const AliasColumn: string := "Node Alias"

  datatype Page = Home | Details(alias: string) | NotFound

  // ---------------------------------------------------------------------------
  // str.split('/') and [-1]
  // ---------------------------------------------------------------------------

  /** `s.split('/')`: the pieces between separators, empty ones included; there is always one. */
  function Split(s: string): (r: seq<string>)
    ensures |r| >= 1
  {
    if s == [] then [""]
    else
      var rest := Split(s[1..]);
      if s[0] == Slash then [""] + rest else [[s[0]] + rest[0]] + rest[1..]
  }

  /** No piece holds a '/'. */
  lemma {:induction false} SplitPieces(s: string)
    ensures forall k | 0 <= k < |Split(s)| :: Slash !in Split(s)[k]
  {
    if s != [] {
      SplitPieces(s[1..]);
      var rest := Split(s[1..]);
      if s[0] != Slash {
        assert Split(s) == [[s[0]] + rest[0]] + rest[1..];
        assert forall k | 1 <= k < |Split(s)| :: Split(s)[k] == rest[k];
      }
    }
  }

  /** `'/'.join(pieces)`. */
  function Join(pieces: seq<string>): string
    requires |pieces| >= 1
  {
    if |pieces| == 1 then pieces[0] else pieces[0] + [Slash] + Join(pieces[1..])
  }

  /** Joining the pieces of a split gives the string back. */
  lemma {:induction false} JoinSplit(s: string)
    ensures Join(Split(s)) == s
  {
    if s != [] {
      var rest := Split(s[1..]);
      JoinSplit(s[1..]);
      if s[0] == Slash {
        assert Split(s) == [""] + rest;
        JoinEmptyFirst(rest);
      } else {
        assert Split(s) == [[s[0]] + rest[0]] + rest[1..];
        JoinConsFirst(s[0], rest);
      }
      assert s == [s[0]] + s[1..];
    }
  }

  /** An empty first piece puts a '/' in front of the join. */
  lemma {:induction false} JoinEmptyFirst(pieces: seq<string>)
    requires |pieces| >= 1
    ensures Join([""] + pieces) == [Slash] + Join(pieces)
  {
    var ps := [""] + pieces;
    assert ps[1..] == pieces;
  }

  /** A character in front of the first piece goes in front of the join. */
  lemma {:induction false} JoinConsFirst(c: char, pieces: seq<string>)
    requires |pieces| >= 1
    ensures Join([[c] + pieces[0]] + pieces[1..]) == [c] + Join(pieces)
  {
    var ps := [[c] + pieces[0]] + pieces[1..];
    if |pieces| > 1 {
      var j := Join(pieces[1..]);
      assert Join(ps) == ([c] + pieces[0]) + [Slash] + j by {
        assert ps[1..] == pieces[1..];
      }
      assert ([c] + pieces[0]) + [Slash] + j == [c] + (pieces[0] + [Slash] + j);
    } else {
      assert Join(ps) == [c] + pieces[0];
    }
  }

  /** Splitting a string that starts with a piece free of '/' extends the first piece. */
  lemma {:induction false} SplitPrefix(a: string, b: string)
    requires Slash !in a
    ensures Split(a + b) == [a + Split(b)[0]] + Split(b)[1..]
  {
    if a != [] {
      SplitPrefix(a[1..], b);
      var sb := Split(b);
      var r := Split(a[1..] + b);
      assert (a + b)[1..] == a[1..] + b && (a + b)[0] == a[0] != Slash;
      assert Split(a + b) == [[a[0]] + r[0]] + r[1..];
      assert r[0] == a[1..] + sb[0] && r[1..] == sb[1..];
      assert [a[0]] + (a[1..] + sb[0]) == a + sb[0];
    } else {
      assert a + b == b;
      assert a + Split(b)[0] == Split(b)[0];
      assert Split(b) == [Split(b)[0]] + Split(b)[1..];
    }
  }

  /** Splitting the join of pieces free of '/' gives the pieces back. */
  lemma {:induction false} SplitJoin(pieces: seq<string>)
    requires |pieces| >= 1 && forall k | 0 <= k < |pieces| :: Slash !in pieces[k]
    ensures Split(Join(pieces)) == pieces
  {
    if |pieces| == 1 {
      SplitPrefix(pieces[0], "");
      assert pieces[0] + "" == pieces[0];
      assert Split("") == [""] && Split("")[1..] == [];
      assert Join(pieces) == pieces[0];
      assert pieces == [pieces[0]];
    } else {
      var tail := Join(pieces[1..]);
      SplitJoin(pieces[1..]);
      SplitPrefix(pieces[0], [Slash] + tail);
      assert pieces[0] + [Slash] + tail == pieces[0] + ([Slash] + tail);
      assert ([Slash] + tail)[1..] == tail && ([Slash] + tail)[0] == Slash;
      assert Split([Slash] + tail) == [""] + pieces[1..];
      assert pieces[0] + "" == pieces[0];
      assert Join(pieces) == pieces[0] + [Slash] + tail;
      assert pieces == [pieces[0]] + pieces[1..];
    }
  }

  function Last(pieces: seq<string>): string
    requires |pieces| >= 1
  {
    pieces[|pieces| - 1]
  }

  /** `s.split('/')[-1]`: the text after the last '/', or all of `s` when it has none. */
  function LastSegment(s: string): (r: string)
    ensures IsLastSegment(s, r)
  {
    LastSegmentSuffix(s);
    Last(Split(s))
  }

  /**
    The last segment is the text after the last '/': a suffix of `s` free of
    '/', which is either all of `s` or preceded by a '/'.
  */
  lemma {:induction false} LastSegmentSuffix(s: string)
    ensures IsLastSegment(s, Last(Split(s)))
  {
    if s != [] {
      LastSegmentSuffix(s[1..]);
      if s[0] == Slash {
        LastSegmentAfterSlash(s);
      } else if |Split(s[1..])| == 1 {
        LastSegmentWhole(s);
      } else {
        LastSegmentLater(s);
      }
    }
  }

  /** `r` is a '/'-free suffix of `s`, either all of `s` or preceded by a '/'. */
  predicate IsLastSegment(s: string, r: string) {
    Slash !in r && |r| <= |s| && s[|s| - |r|..] == r && (|r| < |s| ==> s[|s| - |r| - 1] == Slash)
  }

  lemma {:induction false} LastSegmentAfterSlash(s: string)
    requires s != [] && s[0] == Slash && IsLastSegment(s[1..], Last(Split(s[1..])))
    ensures IsLastSegment(s, Last(Split(s)))
  {
    var t, r := s[1..], Last(Split(s[1..]));
    assert Last(Split(s)) == r by {
      assert Split(s) == [""] + Split(t);
    }
    LastSegmentCons(Slash, t, r);
    assert s == [Slash] + t;
  }

  lemma {:induction false} LastSegmentWhole(s: string)
    requires s != [] && s[0] != Slash && |Split(s[1..])| == 1
    ensures IsLastSegment(s, Last(Split(s)))
  {
    var t, rest := s[1..], Split(s[1..]);
    JoinSplit(t);
    SplitPieces(t);
    assert t == rest[0];
    assert Split(s) == [[s[0]] + rest[0]];
    assert s == [s[0]] + t;
  }

  lemma {:induction false} LastSegmentLater(s: string)
    requires s != [] && s[0] != Slash && |Split(s[1..])| > 1 && IsLastSegment(s[1..], Last(Split(s[1..])))
    ensures IsLastSegment(s, Last(Split(s)))
  {
    var t, rest, r := s[1..], Split(s[1..]), Last(Split(s[1..]));
    assert Last(Split(s)) == r by {
      assert Split(s) == [[s[0]] + rest[0]] + rest[1..];
    }
    SplitsAtSlash(t);
    assert |r| < |t|;
    LastSegmentCons(s[0], t, r);
    assert s == [s[0]] + t;
  }

  /** A last segment of `t` stays one after a character in front, unless it was all of `t` and the character is not '/'. */
  lemma {:induction false} LastSegmentCons(c: char, t: string, r: string)
    requires IsLastSegment(t, r) && (|r| == |t| ==> c == Slash)
    ensures IsLastSegment([c] + t, r)
  {
    var s := [c] + t;
    assert s[|s| - |r|..] == t[|t| - |r|..];
    if |r| < |t| {
      assert s[|s| - |r| - 1] == t[|t| - |r| - 1];
    }
  }

  /** A string that splits into several pieces holds a '/'. */
  lemma {:induction false} SplitsAtSlash(t: string)
    requires |Split(t)| > 1
    ensures Slash in t
  {
    var rest := Split(t);
    JoinSplit(t);
    assert t == rest[0] + [Slash] + Join(rest[1..]);
    assert t[|rest[0]|] == Slash;
  }

  /** A '/'-free suffix preceded by a '/' is the last segment. */
  lemma {:induction false} LastSegmentOf(prefix: string, alias: string)
    requires Slash !in alias && |prefix| > 0 && prefix[|prefix| - 1] == Slash
    ensures LastSegment(prefix + alias) == alias
  {
    var s := prefix + alias;
    var r := LastSegment(s);
    assert s[|prefix| - 1] == Slash;
    assert forall q | |prefix| <= q < |s| :: s[q] == alias[q - |prefix|] && s[q] != Slash;
    assert forall q | |s| - |r| <= q < |s| :: s[q] == r[q - (|s| - |r|)] && s[q] != Slash;
    assert |r| == |alias|;
    assert r == s[|prefix|..] == alias;
  }

  // ---------------------------------------------------------------------------
  // display_page
  // ---------------------------------------------------------------------------

  predicate StartsWith(s: string, prefix: string) {
    |prefix| <= |s| && s[..|prefix|] == prefix
  }

  /**
    display_page (node.py:228-235): "/" is the home page; any other path under
    "/details/" is the details page of the node named by the text after its
    last '/'; anything else is not found.
  */
  function DisplayPage(pathname: string): (page: Page)
    ensures page == Home <==> pathname == "/"
    ensures page.Details? <==> pathname != "/" && StartsWith(pathname, DetailsPrefix)
    ensures page.NotFound? <==> pathname != "/" && !StartsWith(pathname, DetailsPrefix)
    ensures page.Details? ==>
      Slash !in page.alias && StartsWith(pathname, DetailsPrefix) && |page.alias| < |pathname|
      && pathname[|pathname| - |page.alias|..] == page.alias && pathname[|pathname| - |page.alias| - 1] == Slash
  {
    if pathname == "/" then Home
    else if StartsWith(pathname, DetailsPrefix) then
      assert pathname[0] == Slash && pathname[|DetailsPrefix| - 1] == Slash;
      Details(LastSegment(pathname))
    else NotFound
  }

  /** The link the node table builds for an alias, "/details/<alias>", routes back to that alias. */
  lemma {:induction false} DetailsLink(alias: string)
    requires Slash !in alias
    ensures DisplayPage(DetailsPrefix + alias) == Details(alias)
  {
    LastSegmentOf(DetailsPrefix, alias);
    assert (DetailsPrefix + alias)[..|DetailsPrefix|] == DetailsPrefix;
  }

  /** An alias holding a '/' does not survive the round trip: only its last segment does. */
  lemma {:induction false} DetailsLinkSlash()
    ensures DisplayPage(DetailsPrefix + "R1/2") == Details("2")
  {
    LastSegmentOf(DetailsPrefix + "R1/", "2");
    assert DetailsPrefix + "R1/2" == (DetailsPrefix + "R1/") + "2";
    assert (DetailsPrefix + "R1/2")[..|DetailsPrefix|] == DetailsPrefix;
  }

  // ---------------------------------------------------------------------------
  // merged_df[merged_df['Node Alias'] == node_alias]
  // ---------------------------------------------------------------------------

  /** The rows whose cell at `p` is the text `alias`, in order, with their labels. */
  function RowsWithAlias(rows: seq<Row>, p: nat, alias: string): (r: seq<Row>)
    requires forall x | x in rows :: p < |x.cells|
    ensures |r| <= |rows|
    ensures forall x :: x in r <==> x in rows && x.cells[p] == Text(alias)
  {
    if rows == [] then []
    else (if rows[0].cells[p] == Text(alias) then [rows[0]] else []) + RowsWithAlias(rows[1..], p, alias)
  }

  /** Accepts the cells whose cell at `p` is the text `alias`. */
  function HasText(p: nat, alias: string): seq<Value> -> bool {
    c => p < |c| && c[p] == Text(alias)
  }

  /** The alias filter is a row selection that leaves the cells as they are. */
  lemma {:induction false} RowsWithAliasSelects(rows: seq<Row>, p: nat, alias: string)
    requires forall x | x in rows :: p < |x.cells|
    ensures RowsWithAlias(rows, p, alias) == SelectRows(rows, Unchanged(), HasText(p, alias))
  {
    if rows != [] {
      assert rows[0] in rows;
      RowsWithAliasSelects(rows[1..], p, alias);
      assert Row(rows[0].index, rows[0].cells) == rows[0];
    }
  }

  /**
    The node selection of update_graphs (node.py:262-264): the alias is the
    last segment of the path, and the rows kept are those whose "Node Alias"
    holds exactly that text. Selecting a missing column is a KeyError; a
    label naming several columns is refused.
  */
  function SelectNode(merged: Table, pathname: string): (r: Result<Table>)
    requires Wf(merged)
    ensures r.Ok? <==> Count(merged.columns, AliasColumn) == 1
    ensures r.Err? ==> Some(r.error) == ColumnError(merged.columns, AliasColumn)
    ensures r.Ok? ==> r.value.columns == merged.columns && Wf(r.value) && |r.value.rows| <= |merged.rows|
    ensures r.Ok? ==> forall x :: x in r.value.rows <==>
      x in merged.rows && Cell(merged.columns, x.cells, AliasColumn) == Text(LastSegment(pathname))
    ensures r.Ok? ==> (r.value.rows == [] <==>
      forall x | x in merged.rows :: Cell(merged.columns, x.cells, AliasColumn) != Text(LastSegment(pathname)))
  {
    match ColumnError(merged.columns, AliasColumn)
    case Some(e) => Err(e)
    case None =>
      var p := IndexOf(merged.columns, AliasColumn);
      var kept := RowsWithAlias(merged.rows, p, LastSegment(pathname));
      assert kept != [] ==> kept[0] in kept;
      Ok(Table(merged.columns, kept))
  }

  /**
    On the merged table (labels 0, 1, 2, ...), the selection keeps the rows'
    order, and it keeps the row labelled j exactly when that row's alias matches.
  */
  lemma {:induction false} SelectNodeLabels(merged: Table, pathname: string)
    requires Wf(merged) && DefaultIndex(merged.rows) && Count(merged.columns, AliasColumn) == 1
    ensures StrictlyIncreasing(SelectNode(merged, pathname).value.rows)
    ensures forall j | 0 <= j < |merged.rows| ::
      HasLabel(SelectNode(merged, pathname).value.rows, j) <==>
      Cell(merged.columns, merged.rows[j].cells, AliasColumn) == Text(LastSegment(pathname))
  {
    var p := IndexOf(merged.columns, AliasColumn);
    var keep := HasText(p, LastSegment(pathname));
    assert forall x | x in merged.rows :: p < |x.cells|;
    RowsWithAliasSelects(merged.rows, p, LastSegment(pathname));
    SelectRowsIncreasing(merged.rows, Unchanged(), keep, 0);
    SelectRowsKeeps(merged.rows, Unchanged(), keep, 0);
    forall j | 0 <= j < |merged.rows|
      ensures keep(merged.rows[j].cells) <==>
        Cell(merged.columns, merged.rows[j].cells, AliasColumn) == Text(LastSegment(pathname))
    {
      assert merged.rows[j] in merged.rows;
    }
  }

  /** On a node's details page, the selection holds exactly that node's merged rows. */
  lemma {:induction false} SelectNodeDetails(merged: Table, alias: string)
    requires Wf(merged) && Count(merged.columns, AliasColumn) == 1 && Slash !in alias
    ensures DisplayPage(DetailsPrefix + alias) == Details(alias)
    ensures forall x :: x in SelectNode(merged, DetailsPrefix + alias).value.rows <==>
      x in merged.rows && Cell(merged.columns, x.cells, AliasColumn) == Text(alias)
  {
    DetailsLink(alias);
    LastSegmentOf(DetailsPrefix, alias);
  }
}
