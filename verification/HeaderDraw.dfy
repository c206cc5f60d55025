/** _fnDrawHead: the header's TR elements refilled from the layout grid, with hidden columns left
    out, and the round trip with _fnDetectHeader. */
module HeaderDraw {
  import opened HeaderGrid
  import opened HeaderLayout
  import opened Options

  // Columns that are shown: the visible ones, or all.
  function Shown(visible: seq<bool>, includeHidden: bool): (r: seq<bool>)
    ensures |r| == |visible|
  {
    seq(|visible|, j requires 0 <= j < |visible| => visible[j] || includeHidden)
  }

  // All columns, or the visible ones.
  lemma ShownIs(visible: seq<bool>, includeHidden: bool, k: nat)
    requires k < |visible|
    ensures Shown(visible, includeHidden)[k] <==> includeHidden || visible[k]
  {
  }

  // The positions covered by a cell that starts before (i, j).
  ghost predicate AppliedUpTo(applied: seq<set<int>>, g: Grid, columns: nat, rects: map<int, Rect>, i: int, j: int) {
    Tiling(g, columns, rects) && |applied| == |g| &&
    forall a, b :: 0 <= a < |g| && 0 <= b < columns ==> (b in applied[a] <==> Before(rects[g[a][b]], i, j))
  }

  // The TR elements after the rows up to n have been drawn, each into the TR it has as its nTr.
  ghost function Redrawn(trs: seq<seq<Th>>, html: seq<seq<Th>>, nTr: seq<nat>, n: nat): (r: seq<seq<Th>>)
    requires n <= |html| == |nTr| && forall i :: 0 <= i < |nTr| ==> nTr[i] < |trs|
    ensures |r| == |trs|
  {
    if n == 0 then trs else Redrawn(trs, html, nTr, n - 1)[nTr[n - 1] := html[n - 1]]
  }

  // Removing columns from the right, as the splice loop does.
  method HideColumns(row: seq<int>, visible: seq<bool>, includeHidden: bool) returns (local: seq<int>)
    requires |row| == |visible|
    ensures local == Keep(row, Shown(visible, includeHidden), |row|)
  {
    ghost var shown := Shown(visible, includeHidden);
    local := row;
    var j := |row| - 1;
    while j >= 0
      invariant -1 <= j < |row| && j + 1 <= |local|
      invariant local[..j + 1] == row[..j + 1]
      invariant Keep(row, shown, j + 1) + local[j + 1..] == Keep(row, shown, |row|)
    {
      assert Keep(row, shown, j + 1) == Keep(row, shown, j) + if shown[j] then [row[j]] else [];
      if !visible[j] && !includeHidden {
        assert local[..j] + local[j + 1..] == row[..j] + local[j + 1..];
        local := local[..j] + local[j + 1..];
      } else {
        assert local[j..] == [row[j]] + local[j + 1..];
      }
      j := j - 1;
    }
  }

  class TableHead {
    // The TH elements in each TR of the header.
    var trs: seq<seq<Th>>

    constructor (trs: seq<seq<Th>>)
      ensures this.trs == trs
    {
      this.trs := trs;
    }

    // source holds the cells of aoSource, nTr its TR elements; rects is the tiling they form.
    method DrawHead(source: Grid, nTr: seq<nat>, visible: seq<bool>, includeHidden: bool, ghost rects: map<int, Rect>)
      requires Tiling(source, |visible|, rects) && |nTr| == |source| && forall i :: 0 <= i < |nTr| ==> nTr[i] < |trs|
      modifies this
      ensures var shown := Shown(visible, includeHidden);
        Tiling(Restrict(source, |visible|, shown), Count(shown, |visible|), RestrictRects(rects, shown)) &&
        trs == Redrawn(old(trs),
          Html(Restrict(source, |visible|, shown), Count(shown, |visible|), RestrictRects(rects, shown)), nTr, |source|)
    {
      ghost var shown := Shown(visible, includeHidden);
      RestrictTiles(source, |visible|, rects, shown);
      var local: Grid := [];
      for i := 0 to |source|
        invariant trs == old(trs)
        invariant |local| == i && forall a :: 0 <= a < i ==> local[a] == Keep(source[a], shown, |visible|)
      {
        var row := HideColumns(source[i], visible, includeHidden);
        local := local + [row];
      }
      assert local == Restrict(source, |visible|, shown);
      DrawLocal(local, nTr, Count(shown, |visible|), RestrictRects(rects, shown));
    }

    // The drawing loops over the copy without hidden columns.
    method DrawLocal(local: Grid, nTr: seq<nat>, ghost columns: nat, ghost rects: map<int, Rect>)
      requires Tiling(local, columns, rects) && |nTr| == |local| && forall i :: 0 <= i < |nTr| ==> nTr[i] < |trs|
      modifies this
      ensures trs == Redrawn(old(trs), Html(local, columns, rects), nTr, |local|)
    {
      hide RowHtml;
      hide AppliedUpTo;
      ghost var html := Html(local, columns, rects);
      var applied := seq(|local|, _ => {});
      NothingApplied(applied, local, columns, rects);
      for i := 0 to |local|
        invariant |trs| == |old(trs)| && AppliedUpTo(applied, local, columns, rects, i, 0)
        invariant trs == Redrawn(old(trs), html, nTr, i)
      {
        applied := DrawRow(local, i, nTr[i], applied, columns, rects);
      }
    }

    // One row: its TR is emptied and gets the cells not yet applied, the applied grid grows.
    method DrawRow(local: Grid, i: nat, tr: nat, applied: seq<set<int>>, ghost columns: nat, ghost rects: map<int, Rect>)
      returns (applied': seq<set<int>>)
      requires Tiling(local, columns, rects)
      requires AppliedUpTo(applied, local, columns, rects, i, 0) && i < |local| && tr < |trs|
      modifies this
      ensures trs == old(trs)[tr := RowHtml(local, columns, rects, i, columns)]
      ensures AppliedUpTo(applied', local, columns, rects, i + 1, 0)
    {
      hide AppliedUpTo;
      applied' := applied;
      // The row is emptied before its cells are put in.
      trs := trs[tr := []];
      for j := 0 to |local[i]|
        invariant AppliedUpTo(applied', local, columns, rects, i, j)
        invariant trs == old(trs)[tr := RowHtml(local, columns, rects, i, j)]
      {
        AppliedHere(applied', local, columns, rects, i, j);
        if j !in applied'[i] {
          var rowspan, colspan;
          rowspan, colspan, applied' := Expand(local, applied', i, j, columns, rects);
          trs := trs[tr := trs[tr] + [Th(local[i][j], rowspan, colspan)]];
        } else {
          NotStarting(applied', local, columns, rects, i, j);
        }
      }
      RowApplied(applied', local, columns, rects, i);
    }
  }

  lemma NothingApplied(applied: seq<set<int>>, g: Grid, columns: nat, rects: map<int, Rect>)
    requires Tiling(g, columns, rects) && |applied| == |g| && forall a :: 0 <= a < |applied| ==> applied[a] == {}
    ensures AppliedUpTo(applied, g, columns, rects, 0, 0)
  {
  }

  // A position still free is the start of its cell.
  lemma AppliedHere(applied: seq<set<int>>, g: Grid, columns: nat, rects: map<int, Rect>, i: nat, j: nat)
    requires AppliedUpTo(applied, g, columns, rects, i, j) && i < |g| && j < columns
    ensures |g[i]| == columns && g[i][j] in rects && |applied| == |g| && (j !in applied[i] <==> Starts(g, rects, i, j))
  {
    BeforeNext(g, columns, rects, i, j, i, j);
  }

  lemma NotStarting(applied: seq<set<int>>, g: Grid, columns: nat, rects: map<int, Rect>, i: nat, j: nat)
    requires AppliedUpTo(applied, g, columns, rects, i, j) && i < |g| && j < columns && !Starts(g, rects, i, j)
    ensures AppliedUpTo(applied, g, columns, rects, i, j + 1)
  {
    forall a, b | 0 <= a < |g| && 0 <= b < columns ensures b in applied[a] <==> Before(rects[g[a][b]], i, j + 1) {
      BeforeNext(g, columns, rects, i, j, a, b);
    }
  }

  lemma RowApplied(applied: seq<set<int>>, g: Grid, columns: nat, rects: map<int, Rect>, i: nat)
    requires AppliedUpTo(applied, g, columns, rects, i, columns) && i < |g|
    ensures AppliedUpTo(applied, g, columns, rects, i + 1, 0)
  {
    forall a, b | 0 <= a < |g| && 0 <= b < columns ensures b in applied[a] <==> Before(rects[g[a][b]], i + 1, 0) {
      BeforeRow(g, columns, rects, i, a, b);
    }
  }

  // Expand the cell at (i, j) down and to the right as far as the grid names it, marking what it covers.
  method Expand(local: Grid, applied: seq<set<int>>, i: nat, j: nat, ghost columns: nat, ghost rects: map<int, Rect>)
    returns (rowspan: nat, colspan: nat, applied': seq<set<int>>)
    requires AppliedUpTo(applied, local, columns, rects, i, j) && i < |local| && j < columns && Starts(local, rects, i, j)
    ensures rowspan == rects[local[i][j]].height && colspan == rects[local[i][j]].width
    ensures AppliedUpTo(applied', local, columns, rects, i, j + 1)
  {
    ghost var id := local[i][j];
    ghost var r := rects[id];
    assert id in rects && Fits(r, |local|, columns);
    rowspan, colspan := 1, 1;
    applied' := applied[i := applied[i] + {j}];
    while i + rowspan < |local| && local[i][j] == local[i + rowspan][j]
      invariant 1 <= rowspan <= r.height && Marked(applied, applied', i, j, rowspan, 1)
    {
      assert Inside(rects[local[i + rowspan][j]], i + rowspan, j);
      applied' := applied'[i + rowspan := applied'[i + rowspan] + {j}];
      rowspan := rowspan + 1;
    }
    assert rowspan < r.height ==> Inside(r, i + rowspan, j);
    while j + colspan < |local[i]| && local[i][j] == local[i][j + colspan]
      invariant 1 <= colspan <= r.width && Marked(applied, applied', i, j, rowspan, colspan)
    {
      assert Inside(rects[local[i][j + colspan]], i, j + colspan);
      ghost var before := applied';
      applied' := MarkRows(applied', i, rowspan, j + colspan);
      MarkedMore(applied, before, applied', i, j, rowspan, colspan);
      colspan := colspan + 1;
    }
    assert colspan < r.width ==> Inside(r, i, j + colspan);
    forall a, b | 0 <= a < |local| && 0 <= b < columns
      ensures b in applied'[a] <==> Before(rects[local[a][b]], i, j + 1)
    {
      BeforeNext(local, columns, rects, i, j, a, b);
      assert Inside(r, a, b) <==> local[a][b] == id;
    }
  }

  // The loop over the rows of a cell that marks one more column of each.
  method MarkRows(applied: seq<set<int>>, i: nat, rows: nat, col: int) returns (r: seq<set<int>>)
    requires i + rows <= |applied|
    ensures |r| == |applied|
    ensures forall a :: 0 <= a < |r| ==> r[a] == if i <= a < i + rows then applied[a] + {col} else applied[a]
  {
    r := applied;
    for k := 0 to rows
      invariant |r| == |applied|
      invariant forall a :: 0 <= a < |r| ==> r[a] == if i <= a < i + k then applied[a] + {col} else applied[a]
    {
      r := r[i + k := r[i + k] + {col}];
    }
  }

  // The positions of a block of rows and columns have been added to what was applied.
  ghost predicate Marked(applied: seq<set<int>>, applied': seq<set<int>>, i: int, j: int, rows: int, cols: int) {
    |applied'| == |applied| &&
    forall a, b :: 0 <= a < |applied| ==> (b in applied'[a] <==> b in applied[a] || (i <= a < i + rows && j <= b < j + cols))
  }

  lemma MarkedMore(applied: seq<set<int>>, before: seq<set<int>>, after: seq<set<int>>, i: int, j: int, rows: int, cols: int)
    requires Marked(applied, before, i, j, rows, cols) && |after| == |before| && cols > 0
    requires forall a :: 0 <= a < |applied| ==> after[a] == if i <= a < i + rows then before[a] + {j + cols} else before[a]
    ensures Marked(applied, after, i, j, rows, cols + 1)
  {
  }

  // Rows with slots have an nTr, at or above them, of a row that starts a cell.
  ghost predicate Claimed(l: Layout, html: seq<seq<Th>>) {
    |l.rows| == |l.nTr| == |html| &&
    forall a :: 0 <= a < |html| ==>
      (l.rows[a] != map[] ==> l.nTr[a].Some?) &&
      (l.nTr[a].Some? ==> 0 <= l.nTr[a].value <= a && html[l.nTr[a].value] != [])
  }

  lemma {:induction false} RowKeepsClaims(l: Layout, html: seq<seq<Th>>, i: nat, n: nat)
    requires Claimed(l, html) && i < |html| && n <= |html[i]| && RowPlaced(l, i, Nodes(html[i]), n).Some?
    ensures Claimed(RowPlaced(l, i, Nodes(html[i]), n).value, html)
  {
    hide FirstFree;
    hide Filled;
    if n > 0 { RowKeepsClaims(l, html, i, n - 1); }
  }

  lemma NoClaims(html: seq<seq<Th>>)
    ensures Claimed(Blank(|html|), html)
  {
  }

  lemma PositiveSpans(row: seq<Th>, g: Grid, columns: nat, rects: map<int, Rect>, i: nat)
    requires Tiling(g, columns, rects) && IsRow(row, rects, i)
    ensures forall k :: 0 <= k < |row| ==> Nodes(row)[k].Element? && 0 < Nodes(row)[k].th.rowspan && 0 < Nodes(row)[k].th.colspan
  {
    forall k | 0 <= k < |row| ensures 0 < row[k].rowspan && 0 < row[k].colspan {
      assert IsTh(row[k], rects) && Fits(rects[row[k].cell], |g|, columns);
    }
  }

  lemma {:induction false} RowsClaim(g: Grid, columns: nat, rects: map<int, Rect>, n: nat)
    requires Tiling(g, columns, rects) && n <= |g|
    ensures var html := Html(g, columns, rects);
      var r := RowsPlaced(AllNodes(html), n);
      r.Some? && Claimed(r.value, html) &&
      forall a :: 0 <= a < n && html[a] != [] ==> r.value.nTr[a] == Some(a)
  {
    hide RowPlaced;
    hide RowHtml;
    hide Tiling;
    hide PlacedUpTo;
    hide Claimed;
    DetectRows(g, columns, rects, n);
    if n == 0 {
      NoClaims(Html(g, columns, rects));
    } else {
      RowsClaim(g, columns, rects, n - 1);
      var html := Html(g, columns, rects);
      var l := RowsPlaced(AllNodes(html), n - 1).value;
      var nodes := AllNodes(html)[n - 1];
      assert nodes == Nodes(html[n - 1]);
      RowKeepsClaims(l, html, n - 1, |nodes|);
      HtmlOnce(g, columns, rects);
      PositiveSpans(html[n - 1], g, columns, rects, n - 1);
      RowClaims(l, n - 1, nodes, |nodes|);
    }
  }

  // The TR a detected layout draws each row into.
  ghost function DetectedTrs(l: Layout): (nTr: seq<nat>)
    requires |l.nTr| == |l.rows| && forall a :: 0 <= a < |l.nTr| ==> l.nTr[a].Some? && l.nTr[a].value >= 0
    ensures |nTr| == |l.nTr|
  {
    seq(|l.nTr|, a requires 0 <= a < |l.nTr| => l.nTr[a].value as nat)
  }

  // Each row is drawn into its own TR, or, if it starts no cell, into that of a row above that does.
  ghost predicate DrawsAbove(nTr: seq<nat>, html: seq<seq<Th>>) {
    |nTr| == |html| && forall i :: 0 <= i < |nTr| ==> nTr[i] <= i && nTr[nTr[i]] == nTr[i]
  }

  lemma TrsOfDetected(g: Grid, columns: nat, rects: map<int, Rect>) returns (nTr: seq<nat>)
    requires Tiling(g, columns, rects) && columns > 0
    ensures var html := Html(g, columns, rects);
      var r := RowsPlaced(AllNodes(html), |g|);
      r.Some? && |nTr| == |r.value.nTr| && (forall a :: 0 <= a < |nTr| ==> r.value.nTr[a] == Some(nTr[a])) &&
      DrawsAbove(nTr, html) && forall i :: 0 <= i < |nTr| ==> (nTr[i] == i <==> html[i] != [])
  {
    hide RowPlaced;
    hide RowHtml;
    RowsClaim(g, columns, rects, |g|);
    DetectHtml(g, columns, rects);
    var html := Html(g, columns, rects);
    var l := RowsPlaced(AllNodes(html), |g|).value;
    forall a | 0 <= a < |g| ensures l.nTr[a].Some? {
      assert 0 in l.rows[a];
    }
    nTr := DetectedTrs(l);
    forall i | 0 <= i < |nTr|
      ensures nTr[i] <= i && nTr[nTr[i]] == nTr[i] && (nTr[i] == i <==> html[i] != [])
    {
      assert html[nTr[i]] != [];
    }
  }

  // A row below r, but above n, is drawn into the TR of row r.
  ghost predicate Wiped(nTr: seq<nat>, r: nat, n: nat)
    requires n <= |nTr|
  {
    exists i :: r < i < n && nTr[i] == r
  }

  lemma {:induction false} RedrawnAt(trs: seq<seq<Th>>, html: seq<seq<Th>>, nTr: seq<nat>, n: nat, r: nat)
    requires DrawsAbove(nTr, html) && |trs| == |html| && n <= |html| && r < |html|
    requires forall i :: 0 <= i < |nTr| && nTr[i] < i ==> html[i] == [] && trs[i] == []
    ensures Redrawn(trs, html, nTr, n)[r] ==
      if nTr[r] != r then [] else if n <= r then trs[r] else if Wiped(nTr, r, n) then [] else html[r]
  {
    if n > 0 {
      RedrawnAt(trs, html, nTr, n - 1, r);
    }
  }

  // Drawing gives every row its HTML exactly when no row without cells of its own wipes out a row
  // that shows some.
  lemma RedrawnExact(trs: seq<seq<Th>>, html: seq<seq<Th>>, nTr: seq<nat>)
    requires DrawsAbove(nTr, html) && |trs| == |html|
    requires forall i :: 0 <= i < |nTr| && nTr[i] < i ==> html[i] == [] && trs[i] == []
    ensures Redrawn(trs, html, nTr, |html|) == html <==> forall i :: 0 <= i < |nTr| && nTr[i] < i ==> html[nTr[i]] == []
  {
    hide Redrawn;
    if Redrawn(trs, html, nTr, |html|) == html {
      AsDrawn(trs, html, nTr);
    }
    if forall i :: 0 <= i < |nTr| && nTr[i] < i ==> html[nTr[i]] == [] {
      DrawnAs(trs, html, nTr);
    }
  }

  lemma AsDrawn(trs: seq<seq<Th>>, html: seq<seq<Th>>, nTr: seq<nat>)
    requires DrawsAbove(nTr, html) && |trs| == |html|
    requires forall i :: 0 <= i < |nTr| && nTr[i] < i ==> html[i] == [] && trs[i] == []
    requires Redrawn(trs, html, nTr, |html|) == html
    ensures forall i :: 0 <= i < |nTr| && nTr[i] < i ==> html[nTr[i]] == []
  {
    hide Redrawn;
    forall i | 0 <= i < |nTr| && nTr[i] < i ensures html[nTr[i]] == [] {
      WipedAt(nTr, html, i);
      RedrawnAt(trs, html, nTr, |html|, nTr[i]);
    }
  }

  lemma DrawnAs(trs: seq<seq<Th>>, html: seq<seq<Th>>, nTr: seq<nat>)
    requires DrawsAbove(nTr, html) && |trs| == |html|
    requires forall i :: 0 <= i < |nTr| && nTr[i] < i ==> html[i] == [] && trs[i] == []
    requires forall i :: 0 <= i < |nTr| && nTr[i] < i ==> html[nTr[i]] == []
    ensures Redrawn(trs, html, nTr, |html|) == html
  {
    hide Redrawn;
    var drawn := Redrawn(trs, html, nTr, |html|);
    forall r: nat | r < |html| ensures drawn[r] == html[r] {
      RedrawnAt(trs, html, nTr, |html|, r);
      NotWiped(nTr, html, r);
    }
  }

  lemma WipedAt(nTr: seq<nat>, html: seq<seq<Th>>, i: nat)
    requires DrawsAbove(nTr, html) && i < |nTr| && nTr[i] < i
    ensures nTr[nTr[i]] == nTr[i] && Wiped(nTr, nTr[i], |nTr|)
  {
  }

  lemma NotWiped(nTr: seq<nat>, html: seq<seq<Th>>, r: nat)
    requires DrawsAbove(nTr, html) && r < |nTr|
    requires forall i :: 0 <= i < |nTr| && nTr[i] < i ==> html[nTr[i]] == []
    ensures nTr[r] != r ==> nTr[r] < r
    ensures Wiped(nTr, r, |nTr|) ==> html[r] == []
  {
  }

  // A row that starts no cell starts none when columns are hidden.
  lemma NoNewStarts(g: Grid, columns: nat, rects: map<int, Rect>, shown: seq<bool>, i: nat)
    requires Tiling(g, columns, rects) && |shown| == columns && i < |g| && RowHtml(g, columns, rects, i, columns) == []
    requires Tiling(Restrict(g, columns, shown), Count(shown, columns), RestrictRects(rects, shown))
    ensures RowHtml(Restrict(g, columns, shown), Count(shown, columns), RestrictRects(rects, shown), i, Count(shown, columns)) == []
  {
    hide RowHtml;
    var row := RowHtml(Restrict(g, columns, shown), Count(shown, columns), RestrictRects(rects, shown), i, Count(shown, columns));
    RowHtmlOrdered(Restrict(g, columns, shown), Count(shown, columns), RestrictRects(rects, shown), i, Count(shown, columns));
    if row != [] {
      var id := row[0].cell;
      assert IsTh(row[0], RestrictRects(rects, shown)) && id in rects && Fits(rects[id], |g|, columns);
      RowHtmlHas(g, columns, rects, i, columns, id);
    }
  }

  // Read a header, spans of 1 written out or not, hide any columns, draw it: the TR elements hold the
  // HTML of the restricted tiling, and reading them again gives that tiling. It works exactly when every
  // row that starts no cell takes its TR from a row that shows no cell either; in particular when every
  // row starts one.
  lemma HeaderRoundTrip(g: Grid, columns: nat, rects: map<int, Rect>, shown: seq<bool>, trs: seq<seq<Node>>) returns (nTr: seq<nat>)
    requires Tiling(g, columns, rects) && columns > 0 && |shown| == columns && LooseHtml(trs, Html(g, columns, rects))
    ensures var layout := RowsPlaced(trs, |g|);
      layout.Some? && Describes(layout.value, g, columns, rects) &&
      |nTr| == |g| == |layout.value.nTr| && (forall a :: 0 <= a < |nTr| ==> layout.value.nTr[a] == Some(nTr[a]) && nTr[a] < |g|)
    ensures var g', columns', rects' := Restrict(g, columns, shown), Count(shown, columns), RestrictRects(rects, shown);
      Tiling(g', columns', rects') &&
      var html' := Html(g', columns', rects');
      var again := RowsPlaced(AllNodes(html'), |g|);
      again.Some? && Describes(again.value, g', columns', rects') &&
      (Redrawn(AllCells(trs), html', nTr, |g|) == html' <==>
        forall i :: 0 <= i < |g| && RowHtml(g, columns, rects, i, columns) == [] ==> html'[nTr[i]] == [])
    ensures EveryRowStarts(g, columns, rects) ==> forall i :: 0 <= i < |g| ==> nTr[i] == i
  {
    hide RowHtml;
    hide RowsPlaced;
    hide Cells;
    RestrictTiles(g, columns, rects, shown);
    LooseRowsPlaced(trs, Html(g, columns, rects), |g|);
    DetectHtml(g, columns, rects);
    DetectHtml(Restrict(g, columns, shown), Count(shown, columns), RestrictRects(rects, shown));
    nTr := TrsOfDetected(g, columns, rects);
    var html, html' := Html(g, columns, rects), Html(Restrict(g, columns, shown), Count(shown, columns), RestrictRects(rects, shown));
    forall i: nat | i < |g| && html[i] == [] ensures html'[i] == [] && AllCells(trs)[i] == [] {
      NoNewStarts(g, columns, rects, shown, i);
      assert LooseRow(trs[i], html[i]);
    }
    RedrawnExact(AllCells(trs), html', nTr);
  }

  // The cells that the TR elements hold.
  function AllCells(trs: seq<seq<Node>>): seq<seq<Th>> {
    seq(|trs|, i requires 0 <= i < |trs| => Cells(trs[i]))
  }

  // A header of two rows with one cell over both.
  function TallGrid(id: int): Grid { [[id], [id]] }

  function TallRects(id: int): map<int, Rect> { map[id := Rect(0, 0, 2, 1)] }

  // Drawing it as it is loses the cell: the second row has no TR of its own and empties that of the first.
  lemma TallCellLost(id: int) returns (nTr: seq<nat>)
    ensures Tiling(TallGrid(id), 1, TallRects(id))
    ensures var html := Html(TallGrid(id), 1, TallRects(id));
      var layout := RowsPlaced(AllNodes(html), 2);
      html == [[Th(id, 2, 1)], []] &&
      layout.Some? && layout.value.nTr == [Some(0), Some(0)] && nTr == [0, 0] && Redrawn(html, html, nTr, 2) != html
  {
    hide RowsPlaced;
    hide Redrawn;
    hide AllNodes;
    hide Html;
    TallHtml(id);
    nTr := TrsOfDetected(TallGrid(id), 1, TallRects(id));
    var html := Html(TallGrid(id), 1, TallRects(id));
    assert html[0] != [] && html[1] == [];
    assert nTr[0] == 0 && nTr[1] == 0;
    RedrawnExact(html, html, nTr);
    assert nTr == [0, 0];
  }

  lemma TallHtml(id: int)
    ensures Tiling(TallGrid(id), 1, TallRects(id))
    ensures Html(TallGrid(id), 1, TallRects(id)) == [[Th(id, 2, 1)], []]
  {
    var g, rects := TallGrid(id), TallRects(id);
    assert Tiling(g, 1, rects);
    TallRow(id, 0);
    TallRow(id, 1);
  }

  lemma TallRow(id: int, i: nat)
    requires i < 2 && Tiling(TallGrid(id), 1, TallRects(id))
    ensures RowHtml(TallGrid(id), 1, TallRects(id), i, 1) == if i == 0 then [Th(id, 2, 1)] else []
  {
    hide Tiling;
    var g, rects := TallGrid(id), TallRects(id);
    assert RowHtml(g, 1, rects, i, 0) == [];
    assert rects[id] == Rect(0, 0, 2, 1) && g[i][0] == id;
    assert Starts(g, rects, i, 0) <==> i == 0;
  }
}
