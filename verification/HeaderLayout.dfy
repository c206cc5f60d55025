/** _fnDetectHeader and _fnDrawHead: the layout grid of a header read from its HTML, and the HTML
    written back with some columns hidden. */
module HeaderLayout {
  import opened HeaderGrid
  import opened Options

  // What the grid holds at a position. unique marks a cell that spans a single column.
  datatype Slot = Slot(cell: int, unique: bool)

  // Sparse rows of slots, and for each row the index of the TR element kept as its nTr.
  datatype Layout = Layout(rows: seq<map<int, Slot>>, nTr: seq<Option<int>>)

  // A child of a TR element: a TD or TH, or something else, such as text.
  datatype Node = Element(th: Th) | OtherNode

  // A span attribute, with 1 for none.
  function Sanitised(span: int): int { if span == 0 || span == 1 then 1 else span }

  // fnShiftCol: the first column from j on where the row has no slot yet.
  function FirstFree(row: map<int, Slot>, j: nat): (r: nat)
    ensures j <= r && r !in row && forall b :: j <= b < r ==> b in row
    decreases |set k | k in row && k >= j|
  {
    if j in row then
      var later, all := set k | k in row && k >= j + 1, set k | k in row && k >= j;
      assert j in all && j !in later && forall k :: k in later ==> k in all;
      SubsetSize(later, all);
      FirstFree(row, j + 1)
    else j
  }

  lemma SubsetSize(a: set<int>, b: set<int>)
    requires a < b
    ensures |a| < |b|
  {
    assert b == a + (b - a) && b - a != {};
  }

  // A stretch of n columns of one row filled with a slot.
  function Filled(row: map<int, Slot>, from: nat, n: nat, s: Slot): map<int, Slot> {
    if n == 0 then row else Filled(row, from, n - 1, s)[from + n - 1 := s]
  }

  // The layout with a cell placed at row i, column col; rows beyond the last make the original throw.
  function Placed(l: Layout, i: nat, col: nat, th: Th): Option<Layout>
    requires |l.rows| == |l.nTr|
  {
    var height, width := Sanitised(th.rowspan), Sanitised(th.colspan);
    if height <= 0 || width <= 0 then Some(l)
    else if i + height > |l.rows| then None
    else
      var s := Slot(th.cell, width == 1);
      Some(Layout(
        seq(|l.rows|, a requires 0 <= a < |l.rows| => if i <= a < i + height then Filled(l.rows[a], col, width, s) else l.rows[a]),
        seq(|l.nTr|, a requires 0 <= a < |l.nTr| => if i <= a < i + height then Some(i) else l.nTr[a])))
  }

  // The layout after the first n nodes of TR i.
  function RowPlaced(l: Layout, i: nat, nodes: seq<Node>, n: nat): (r: Option<Layout>)
    requires |l.rows| == |l.nTr| && i < |l.rows| && n <= |nodes|
    ensures r.Some? ==> |r.value.rows| == |r.value.nTr| == |l.rows|
  {
    if n == 0 then Some(l)
    else
      var before := RowPlaced(l, i, nodes, n - 1);
      if before.None? || nodes[n - 1].OtherNode? then before
      else Placed(before.value, i, FirstFree(before.value.rows[i], 0), nodes[n - 1].th)
  }

  function Blank(n: nat): Layout {
    Layout(seq(n, _ => map[]), seq(n, _ => None))
  }

  // The layout after the first n of all TR elements.
  function RowsPlaced(trs: seq<seq<Node>>, n: nat): (r: Option<Layout>)
    requires n <= |trs|
    ensures r.Some? ==> |r.value.rows| == |r.value.nTr| == |trs|
  {
    if n == 0 then Some(Blank(|trs|))
    else
      var before := RowsPlaced(trs, n - 1);
      if before.None? then None else RowPlaced(before.value, n - 1, trs[n - 1], |trs[n - 1]|)
  }

  method DetectHeader(trs: seq<seq<Node>>) returns (layout: Option<Layout>)
    ensures layout == RowsPlaced(trs, |trs|)
  {
    hide Placed;
    hide FirstFree;
    layout := Some(Blank(|trs|));
    for i := 0 to |trs|
      invariant layout == RowsPlaced(trs, i)
    {
      if layout.None? {
        NoneStays(trs, i);
        return;
      }
      ghost var start := layout.value;
      for n := 0 to |trs[i]|
        invariant layout.Some? && layout == RowPlaced(start, i, trs[i], n)
      {
        if trs[i][n].Element? {
          var shifted := FirstFree(layout.value.rows[i], 0);
          layout := PlaceCell(layout.value, i, shifted, trs[i][n].th);
          if layout.None? {
            RowNoneStays(start, i, trs[i], n + 1);
            NoneStays(trs, i + 1);
            return;
          }
        }
      }
    }
  }

  lemma {:induction false} RowNoneStays(l: Layout, i: nat, nodes: seq<Node>, n: nat)
    requires |l.rows| == |l.nTr| && i < |l.rows| && n <= |nodes| && RowPlaced(l, i, nodes, n).None?
    ensures RowPlaced(l, i, nodes, |nodes|).None?
    decreases |nodes| - n
  {
    if n < |nodes| { RowNoneStays(l, i, nodes, n + 1); }
  }

  lemma {:induction false} NoneStays(trs: seq<seq<Node>>, n: nat)
    requires n <= |trs| && RowsPlaced(trs, n).None?
    ensures RowsPlaced(trs, |trs|).None?
    decreases |trs| - n
  {
    if n < |trs| { NoneStays(trs, n + 1); }
  }

  // Rows i to i + height - 1 have c columns filled, and the first k of them one more.
  ghost predicate FilledRows(rows: seq<map<int, Slot>>, nTr: seq<Option<int>>, l: Layout, i: nat, height: int, k: nat, col: nat, c: nat, s: Slot) {
    |rows| == |nTr| == |l.rows| == |l.nTr| &&
    (forall a :: 0 <= a < |rows| ==>
      rows[a] == if i <= a < i + height then Filled(l.rows[a], col, if a < i + k then c + 1 else c, s) else l.rows[a]) &&
    (forall a :: 0 <= a < |nTr| ==>
      nTr[a] == if i <= a < i + height && (c > 0 || a < i + k) then Some(i) else l.nTr[a])
  }

  lemma FilledOneMore(rows: seq<map<int, Slot>>, nTr: seq<Option<int>>, l: Layout, i: nat, height: int, k: nat, col: nat, c: nat, s: Slot)
    requires FilledRows(rows, nTr, l, i, height, k, col, c, s) && k < height && i + k < |rows| == |nTr| == |l.rows|
    ensures FilledRows(rows[i + k := rows[i + k][col + c := s]], nTr[i + k := Some(i)], l, i, height, k + 1, col, c, s)
  {
  }

  // The two nested loops that copy a cell into the layout, column by column.
  method PlaceCell(l: Layout, i: nat, col: nat, th: Th) returns (r: Option<Layout>)
    requires |l.rows| == |l.nTr| && i < |l.rows|
    ensures r == Placed(l, i, col, th)
  {
    var colspan, rowspan := Sanitised(th.colspan), Sanitised(th.rowspan);
    var slot := Slot(th.cell, colspan == 1);
    var rows: seq<map<int, Slot>>, nTr: seq<Option<int>> := l.rows, l.nTr;
    var c: nat := 0;
    while c < colspan
      invariant (if colspan > 0 then c <= colspan else c == 0) && |rows| == |nTr| == |l.rows|
      invariant c > 0 ==> i + rowspan <= |rows|
      invariant FilledRows(rows, nTr, l, i, rowspan, 0, col, c, slot)
    {
      hide Filled;
      var k: nat := 0;
      while k < rowspan
        invariant (if rowspan > 0 then k <= rowspan else k == 0) && |rows| == |nTr| == |l.rows| && i + k <= |rows|
        invariant FilledRows(rows, nTr, l, i, rowspan, k, col, c, slot)
      {
        if i + k >= |rows| {
          return None;
        }
        FilledOneMore(rows, nTr, l, i, rowspan, k, col, c, slot);
        rows := rows[i + k := rows[i + k][col + c := slot]];
        nTr := nTr[i + k := Some(i)];
        k := k + 1;
      }
      c := c + 1;
    }
    r := Some(Layout(rows, nTr));
    ghost var p := Placed(l, i, col, th).value;
    assert rows == p.rows && nTr == p.nTr;
  }

  // Row a of the layout once the cells that start before (i, j) have been placed.
  ghost predicate PlacedUpTo(l: Layout, g: Grid, columns: nat, rects: map<int, Rect>, i: nat, j: nat) {
    Tiling(g, columns, rects) && |l.rows| == |l.nTr| == |g| &&
    forall a :: 0 <= a < |g| ==> RowUpTo(l.rows[a], g, columns, rects, a, i, j)
  }

  ghost predicate RowUpTo(row: map<int, Slot>, g: Grid, columns: nat, rects: map<int, Rect>, a: nat, i: nat, j: nat)
    requires Tiling(g, columns, rects) && a < |g|
  {
    forall b :: (b in row <==> 0 <= b < columns && Before(rects[g[a][b]], i, j)) &&
      (b in row && 0 <= b < columns ==> row[b] == Slot(g[a][b], rects[g[a][b]].width == 1))
  }

  lemma {:induction false} FilledAt(row: map<int, Slot>, from: nat, n: nat, s: Slot, b: int)
    ensures b in Filled(row, from, n, s) <==> b in row || from <= b < from + n
    ensures from <= b < from + n ==> Filled(row, from, n, s)[b] == s
    ensures b in row && !(from <= b < from + n) ==> Filled(row, from, n, s)[b] == row[b]
  {
    if n > 0 { FilledAt(row, from, n - 1, s, b); }
  }

  // In row i, the columns left of a cell that starts at (i, j) are taken and j is free.
  lemma FreeAtStart(l: Layout, g: Grid, columns: nat, rects: map<int, Rect>, i: nat, j: nat)
    requires PlacedUpTo(l, g, columns, rects, i, j) && i < |g| && j < columns && Starts(g, rects, i, j)
    ensures FirstFree(l.rows[i], 0) == j
  {
    BeforeNext(g, columns, rects, i, j, i, j);
    assert RowUpTo(l.rows[i], g, columns, rects, i, i, j);
  }

  // Placing the cell that starts at (i, j) fills exactly its rectangle.
  lemma PlaceStart(l: Layout, g: Grid, columns: nat, rects: map<int, Rect>, i: nat, j: nat)
    requires PlacedUpTo(l, g, columns, rects, i, j) && i < |g| && j < columns && Starts(g, rects, i, j)
    ensures var r := Placed(l, i, j, Th(g[i][j], rects[g[i][j]].height, rects[g[i][j]].width));
      r.Some? && PlacedUpTo(r.value, g, columns, rects, i, j + 1)
  {
    var id := g[i][j];
    var r := rects[id];
    assert Fits(r, |g|, columns);
    var p := Placed(l, i, j, Th(id, r.height, r.width)).value;
    forall a | 0 <= a < |g|
      ensures RowUpTo(p.rows[a], g, columns, rects, a, i, j + 1)
    {
      RowPlacedUpTo(l.rows[a], p.rows[a], g, columns, rects, a, i, j);
    }
  }

  lemma RowPlacedUpTo(row: map<int, Slot>, row': map<int, Slot>, g: Grid, columns: nat, rects: map<int, Rect>, a: nat, i: nat, j: nat)
    requires Tiling(g, columns, rects) && a < |g| && i < |g| && j < columns && Starts(g, rects, i, j)
    requires RowUpTo(row, g, columns, rects, a, i, j)
    requires var r := rects[g[i][j]];
      row' == if i <= a < i + r.height then Filled(row, j, r.width, Slot(g[i][j], r.width == 1)) else row
    ensures RowUpTo(row', g, columns, rects, a, i, j + 1)
  {
    var id := g[i][j];
    assert id in rects && Fits(rects[id], |g|, columns);
    var r := rects[id];
    forall b
      ensures (b in row' <==> 0 <= b < columns && Before(rects[g[a][b]], i, j + 1)) &&
        (b in row' && 0 <= b < columns ==> row'[b] == Slot(g[a][b], rects[g[a][b]].width == 1))
    {
      if 0 <= b < columns {
        BeforeNext(g, columns, rects, i, j, a, b);
        assert Inside(r, a, b) <==> g[a][b] == g[i][j];
      }
      FilledAt(row, j, r.width, Slot(g[i][j], r.width == 1), b);
    }
  }

  // HTML rows as children of TR elements.
  function Nodes(row: seq<Th>): seq<Node> {
    seq(|row|, k requires 0 <= k < |row| => Element(row[k]))
  }

  ghost function AllNodes(html: seq<seq<Th>>): seq<seq<Node>> {
    seq(|html|, i requires 0 <= i < |html| => Nodes(html[i]))
  }

  // Detecting a row's HTML, as far as column j, completes the layout up to there.
  lemma {:induction false} DetectRow(l: Layout, g: Grid, columns: nat, rects: map<int, Rect>, i: nat, j: nat)
    requires PlacedUpTo(l, g, columns, rects, i, 0) && i < |g| && j <= columns
    ensures var nodes := Nodes(RowHtml(g, columns, rects, i, j));
      var r := RowPlaced(l, i, nodes, |nodes|);
      r.Some? && PlacedUpTo(r.value, g, columns, rects, i, j)
  {
    hide Placed;
    hide FirstFree;
    hide PlacedUpTo;
    TilingOf(l, g, columns, rects, i, 0);
    if j > 0 {
      DetectRow(l, g, columns, rects, i, j - 1);
      var before := Nodes(RowHtml(g, columns, rects, i, j - 1));
      var nodes := Nodes(RowHtml(g, columns, rects, i, j));
      var l' := RowPlaced(l, i, before, |before|).value;
      TilingOf(l', g, columns, rects, i, j - 1);
      if Starts(g, rects, i, j - 1) {
        assert nodes[..|before|] == before;
        PrefixPlaced(l, i, nodes, before, |before|);
        FreeAtStart(l', g, columns, rects, i, j - 1);
        PlaceStart(l', g, columns, rects, i, j - 1);
      } else {
        NothingStarts(l', g, columns, rects, i, j - 1);
      }
    }
  }

  lemma TilingOf(l: Layout, g: Grid, columns: nat, rects: map<int, Rect>, i: nat, j: nat)
    requires PlacedUpTo(l, g, columns, rects, i, j)
    ensures Tiling(g, columns, rects) && |l.rows| == |l.nTr| == |g|
  {
  }

  lemma {:induction false} PrefixPlaced(l: Layout, i: nat, nodes: seq<Node>, prefix: seq<Node>, n: nat)
    requires |l.rows| == |l.nTr| && i < |l.rows| && n <= |prefix| <= |nodes| && nodes[..|prefix|] == prefix
    ensures RowPlaced(l, i, nodes, n) == RowPlaced(l, i, prefix, n)
  {
    hide Placed;
    hide FirstFree;
    if n > 0 {
      PrefixPlaced(l, i, nodes, prefix, n - 1);
      assert nodes[n - 1] == nodes[..|prefix|][n - 1];
    }
  }

  lemma NothingStarts(l: Layout, g: Grid, columns: nat, rects: map<int, Rect>, i: nat, j: nat)
    requires PlacedUpTo(l, g, columns, rects, i, j) && i < |g| && j < columns && !Starts(g, rects, i, j)
    ensures PlacedUpTo(l, g, columns, rects, i, j + 1)
  {
    forall a | 0 <= a < |g|
      ensures RowUpTo(l.rows[a], g, columns, rects, a, i, j + 1)
    {
      var row := l.rows[a];
      assert RowUpTo(row, g, columns, rects, a, i, j);
      forall b
        ensures (b in row <==> 0 <= b < columns && Before(rects[g[a][b]], i, j + 1)) &&
          (b in row && 0 <= b < columns ==> row[b] == Slot(g[a][b], rects[g[a][b]].width == 1))
      {
        if 0 <= b < columns { BeforeNext(g, columns, rects, i, j, a, b); }
      }
    }
  }

  lemma NextRow(l: Layout, g: Grid, columns: nat, rects: map<int, Rect>, i: nat)
    requires PlacedUpTo(l, g, columns, rects, i, columns) && i < |g|
    ensures PlacedUpTo(l, g, columns, rects, i + 1, 0)
  {
    forall a | 0 <= a < |g|
      ensures RowUpTo(l.rows[a], g, columns, rects, a, i + 1, 0)
    {
      var row := l.rows[a];
      assert RowUpTo(row, g, columns, rects, a, i, columns);
      forall b
        ensures (b in row <==> 0 <= b < columns && Before(rects[g[a][b]], i + 1, 0)) &&
          (b in row && 0 <= b < columns ==> row[b] == Slot(g[a][b], rects[g[a][b]].width == 1))
      {
        if 0 <= b < columns { BeforeRow(g, columns, rects, i, a, b); }
      }
    }
  }

  lemma {:induction false} DetectRows(g: Grid, columns: nat, rects: map<int, Rect>, n: nat)
    requires Tiling(g, columns, rects) && n <= |g|
    ensures var r := RowsPlaced(AllNodes(Html(g, columns, rects)), n);
      r.Some? && PlacedUpTo(r.value, g, columns, rects, n, 0)
  {
    hide RowPlaced;
    hide RowHtml;
    if n == 0 {
      NothingBefore(g, columns, rects);
    } else {
      DetectRows(g, columns, rects, n - 1);
      var l := RowsPlaced(AllNodes(Html(g, columns, rects)), n - 1).value;
      DetectRow(l, g, columns, rects, n - 1, columns);
      var nodes := AllNodes(Html(g, columns, rects))[n - 1];
      assert nodes == Nodes(RowHtml(g, columns, rects, n - 1, columns));
      NextRow(RowPlaced(l, n - 1, nodes, |nodes|).value, g, columns, rects, n - 1);
    }
  }

  lemma NothingBefore(g: Grid, columns: nat, rects: map<int, Rect>)
    requires Tiling(g, columns, rects)
    ensures PlacedUpTo(Blank(|g|), g, columns, rects, 0, 0)
  {
  }

  // The layout says of every position the cell that is there, and whether it has one column.
  ghost predicate Describes(l: Layout, g: Grid, columns: nat, rects: map<int, Rect>)
    requires Tiling(g, columns, rects)
  {
    |l.rows| == |g| &&
    forall a :: 0 <= a < |g| ==>
      (forall b :: b in l.rows[a] <==> 0 <= b < columns) &&
      (forall b :: 0 <= b < columns && b in l.rows[a] ==> l.rows[a][b] == Slot(g[a][b], rects[g[a][b]].width == 1))
  }

  // Detecting the HTML of a tiling gives the tiling back.
  lemma DetectHtml(g: Grid, columns: nat, rects: map<int, Rect>)
    requires Tiling(g, columns, rects)
    ensures var r := RowsPlaced(AllNodes(Html(g, columns, rects)), |g|);
      r.Some? && Describes(r.value, g, columns, rects)
  {
    DetectRows(g, columns, rects, |g|);
    var l := RowsPlaced(AllNodes(Html(g, columns, rects)), |g|).value;
    forall a | 0 <= a < |g|
      ensures (forall b :: b in l.rows[a] <==> 0 <= b < columns) &&
        (forall b :: 0 <= b < columns && b in l.rows[a] ==> l.rows[a][b] == Slot(g[a][b], rects[g[a][b]].width == 1))
    {
      assert RowUpTo(l.rows[a], g, columns, rects, a, |g|, 0);
      forall b | 0 <= b < columns ensures Before(rects[g[a][b]], |g|, 0) {
        var id := g[a][b];
        assert id in rects && Fits(rects[id], |g|, columns);
      }
    }
  }

  // ----- html as it is written by hand

  // The TH elements among the children of a TR.
  function Cells(nodes: seq<Node>): seq<Th> {
    if nodes == [] then []
    else Cells(nodes[..|nodes| - 1]) + if nodes[|nodes| - 1].Element? then [nodes[|nodes| - 1].th] else []
  }

  // The same cell, with its spans, except that a span of 1 may have been left out.
  predicate Loosely(th: Th, exact: Th) {
    th.cell == exact.cell &&
    (th.rowspan == exact.rowspan || (th.rowspan == 0 && exact.rowspan == 1)) &&
    (th.colspan == exact.colspan || (th.colspan == 0 && exact.colspan == 1))
  }

  predicate LooseRow(nodes: seq<Node>, row: seq<Th>) {
    |Cells(nodes)| == |row| && forall k :: 0 <= k < |row| ==> Loosely(Cells(nodes)[k], row[k])
  }

  // The same cells in every row, and anything else between them.
  predicate LooseHtml(trs: seq<seq<Node>>, html: seq<seq<Th>>) {
    |trs| == |html| && forall i :: 0 <= i < |trs| ==> LooseRow(trs[i], html[i])
  }

  lemma {:induction false} LooseRowPlaced(l: Layout, i: nat, nodes: seq<Node>, row: seq<Th>)
    requires |l.rows| == |l.nTr| && i < |l.rows| && LooseRow(nodes, row)
    ensures RowPlaced(l, i, nodes, |nodes|) == RowPlaced(l, i, Nodes(row), |row|)
    decreases |nodes|
  {
    hide FirstFree;
    if nodes != [] {
      var n := |nodes| - 1;
      var before, last := nodes[..n], nodes[n];
      PrefixPlaced(l, i, nodes, before, n);
      if last.OtherNode? {
        LooseRowPlaced(l, i, before, row);
      } else {
        var m := |row| - 1;
        var cells := Cells(nodes);
        assert cells[..m] == Cells(before);
        forall k | 0 <= k < m ensures Loosely(Cells(before)[k], row[..m][k]) { assert Loosely(cells[k], row[k]); }
        LooseRowPlaced(l, i, before, row[..m]);
        assert Nodes(row)[..m] == Nodes(row[..m]);
        PrefixPlaced(l, i, Nodes(row), Nodes(row[..m]), m);
        assert Loosely(cells[m], row[m]) && cells[m] == last.th;
        var start := RowPlaced(l, i, before, n);
        if start.Some? {
          SamePlaced(start.value, i, FirstFree(start.value.rows[i], 0), last.th, row[m]);
        }
      }
    }
  }

  lemma SamePlaced(l: Layout, i: nat, col: nat, th: Th, exact: Th)
    requires |l.rows| == |l.nTr| && Loosely(th, exact)
    ensures Placed(l, i, col, th) == Placed(l, i, col, exact)
  {
    hide Filled;
  }

  lemma {:induction false} LooseRowsPlaced(trs: seq<seq<Node>>, html: seq<seq<Th>>, n: nat)
    requires LooseHtml(trs, html) && n <= |trs|
    ensures RowsPlaced(trs, n) == RowsPlaced(AllNodes(html), n)
  {
    hide RowPlaced;
    if n > 0 {
      LooseRowsPlaced(trs, html, n - 1);
      var before := RowsPlaced(trs, n - 1);
      if before.Some? { LooseRowPlaced(before.value, n - 1, trs[n - 1], html[n - 1]); }
    }
  }

  // Detecting a header gives its tiling, whether its spans of 1 are written out or not, and whatever else
  // stands between its cells.
  lemma DetectLoose(g: Grid, columns: nat, rects: map<int, Rect>, trs: seq<seq<Node>>)
    requires Tiling(g, columns, rects) && LooseHtml(trs, Html(g, columns, rects))
    ensures var r := RowsPlaced(trs, |g|); r.Some? && Describes(r.value, g, columns, rects)
  {
    hide RowPlaced;
    hide LooseRow;
    LooseRowsPlaced(trs, Html(g, columns, rects), |g|);
    DetectHtml(g, columns, rects);
  }

  // A plain cell, alone in the header.
  lemma PlainCell(id: int)
    ensures RowsPlaced([[OtherNode, Element(Th(id, 0, 0)), OtherNode]], 1) ==
      Some(Layout([map[0 := Slot(id, true)]], [Some(0)]))
  {
    var nodes := [OtherNode, Element(Th(id, 0, 0)), OtherNode];
    var l := Blank(1);
    var placed := Layout([map[0 := Slot(id, true)]], [Some(0)]);
    assert FirstFree(l.rows[0], 0) == 0;
    assert Filled(map[], 0, 1, Slot(id, true)) == map[0 := Slot(id, true)];
    var p := Placed(l, 0, 0, Th(id, 0, 0));
    assert p.Some? && |p.value.rows| == 1 == |p.value.nTr| && p.value.rows[0] == placed.rows[0] && p.value.nTr[0] == Some(0);
    assert p.value.rows == placed.rows && p.value.nTr == placed.nTr;
    assert RowPlaced(l, 0, nodes, 1) == Some(l);
    assert RowPlaced(l, 0, nodes, 2) == Some(placed);
    assert RowPlaced(l, 0, nodes, 3) == Some(placed);
    assert RowsPlaced([nodes], 0) == Some(l);
  }

  // A row's nTr is the TR of the last row that placed a cell over it: placing row i leaves the rows
  // above alone, and claims row i itself if it places anything.
  lemma {:induction false} RowClaims(l: Layout, i: nat, nodes: seq<Node>, n: nat)
    requires |l.rows| == |l.nTr| && i < |l.rows| && n <= |nodes| && RowPlaced(l, i, nodes, n).Some?
    requires forall k :: 0 <= k < n ==> nodes[k].Element? && 0 < nodes[k].th.rowspan && 0 < nodes[k].th.colspan
    ensures var l' := RowPlaced(l, i, nodes, n).value;
      (forall a :: 0 <= a < i ==> l'.nTr[a] == l.nTr[a]) && (n > 0 ==> l'.nTr[i] == Some(i))
  {
    hide FirstFree;
    if n > 0 { RowClaims(l, i, nodes, n - 1); }
  }

  // Every row starts a cell of the tiling.
  ghost predicate EveryRowStarts(g: Grid, columns: nat, rects: map<int, Rect>)
    requires Tiling(g, columns, rects)
  {
    forall i :: 0 <= i < |g| ==> RowHtml(g, columns, rects, i, columns) != []
  }

  lemma {:induction false} OwnRows(g: Grid, columns: nat, rects: map<int, Rect>, n: nat)
    requires Tiling(g, columns, rects) && n <= |g| && EveryRowStarts(g, columns, rects)
    ensures var r := RowsPlaced(AllNodes(Html(g, columns, rects)), n);
      r.Some? && forall a :: 0 <= a < n ==> r.value.nTr[a] == Some(a)
  {
    hide RowPlaced;
    hide RowHtml;
    DetectRows(g, columns, rects, n);
    if n > 0 {
      OwnRows(g, columns, rects, n - 1);
      var l := RowsPlaced(AllNodes(Html(g, columns, rects)), n - 1).value;
      var row := RowHtml(g, columns, rects, n - 1, columns);
      var nodes := AllNodes(Html(g, columns, rects))[n - 1];
      assert nodes == Nodes(row);
      RowHtmlOrdered(g, columns, rects, n - 1, columns);
      forall k | 0 <= k < |nodes|
        ensures nodes[k].Element? && 0 < nodes[k].th.rowspan && 0 < nodes[k].th.colspan
      {
        assert IsTh(row[k], rects) && Fits(rects[row[k].cell], |g|, columns);
      }
      RowClaims(l, n - 1, nodes, |nodes|);
    }
  }
}
