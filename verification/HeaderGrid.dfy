/** The header of a table as a grid. Every cell of the header covers a rectangle of rows and
    columns; the grid names the cell at each position. This module says what a tiling by such
    rectangles is, which cells of it start where, and what hiding columns makes of it. */
module HeaderGrid {

  // A header cell is known by its identity only.
  type Grid = seq<seq<int>>

  datatype Rect = Rect(top: nat, left: nat, height: nat, width: nat)

  predicate Inside(r: Rect, i: int, j: int) {
    r.top <= i < r.top + r.height && r.left <= j < r.left + r.width
  }

  // Every row of the grid has the same number of columns.
  ghost predicate Rectangular(g: Grid, columns: nat) {
    forall i :: 0 <= i < |g| ==> |g[i]| == columns
  }

  predicate Fits(r: Rect, rows: nat, columns: nat) {
    0 < r.height && 0 < r.width && r.top + r.height <= rows && r.left + r.width <= columns
  }

  // The cells are disjoint rectangles that fill the grid.
  ghost predicate Tiling(g: Grid, columns: nat, rects: map<int, Rect>) {
    Rectangular(g, columns) &&
    (forall id :: id in rects ==> Fits(rects[id], |g|, columns)) &&
    (forall i, j :: 0 <= i < |g| && 0 <= j < columns ==> g[i][j] in rects && Inside(rects[g[i][j]], i, j)) &&
    (forall id, i, j :: id in rects && Inside(rects[id], i, j) ==> g[i][j] == id)
  }

  // The corner of r comes before position (i, j), reading rows from the top, each from the left.
  predicate Before(r: Rect, i: int, j: int) {
    r.top < i || (r.top == i && r.left < j)
  }

  // A cell starts at (i, j).
  predicate Starts(g: Grid, rects: map<int, Rect>, i: int, j: int)
    requires 0 <= i < |g| && 0 <= j < |g[i]| && g[i][j] in rects
  {
    rects[g[i][j]].top == i && rects[g[i][j]].left == j
  }

  // A TH element with its span attributes; 0 stands for an attribute that is missing or no number.
  datatype Th = Th(cell: int, rowspan: int, colspan: int)

  // The TH elements of row i whose cells start before column j.
  ghost function RowHtml(g: Grid, columns: nat, rects: map<int, Rect>, i: nat, j: nat): seq<Th>
    requires Tiling(g, columns, rects) && i < |g| && j <= columns
  {
    if j == 0 then []
    else
      var rest := RowHtml(g, columns, rects, i, j - 1);
      if Starts(g, rects, i, j - 1) then
        var id := g[i][j - 1];
        rest + [Th(id, rects[id].height, rects[id].width)]
      else rest
  }

  // The header as HTML: every cell once, in the row it starts in, with its spans.
  ghost function Html(g: Grid, columns: nat, rects: map<int, Rect>): seq<seq<Th>>
    requires Tiling(g, columns, rects)
  {
    seq(|g|, i requires 0 <= i < |g| => RowHtml(g, columns, rects, i, columns))
  }

  // Two positions that no start separates: (i, j) and the next one.
  lemma BeforeNext(g: Grid, columns: nat, rects: map<int, Rect>, i: nat, j: nat, a: nat, b: nat)
    requires Tiling(g, columns, rects) && i < |g| && j < columns && a < |g| && b < columns
    ensures Before(rects[g[a][b]], i, j + 1) <==>
      Before(rects[g[a][b]], i, j) || (Starts(g, rects, i, j) && g[a][b] == g[i][j])
    ensures Starts(g, rects, i, j) <==> !Before(rects[g[i][j]], i, j)
  {
    var r := rects[g[a][b]];
    if r.top == i && r.left == j {
      assert Inside(r, i, j);
      assert g[i][j] == g[a][b];
    }
  }

  lemma BeforeRow(g: Grid, columns: nat, rects: map<int, Rect>, i: nat, a: nat, b: nat)
    requires Tiling(g, columns, rects) && i < |g| && a < |g| && b < columns
    ensures Before(rects[g[a][b]], i, columns) <==> Before(rects[g[a][b]], i + 1, 0)
  {
    var id := g[a][b];
    assert id in rects && Fits(rects[id], |g|, columns);
  }

  // TH elements of cells that start in row i, from left to right, with the spans of their cells.
  predicate IsRow(row: seq<Th>, rects: map<int, Rect>, i: nat) {
    (forall k :: 0 <= k < |row| ==> IsTh(row[k], rects) && rects[row[k].cell].top == i) &&
    (forall k, l :: 0 <= k < l < |row| && IsTh(row[k], rects) && IsTh(row[l], rects) ==>
      rects[row[k].cell].left < rects[row[l].cell].left)
  }

  predicate IsTh(th: Th, rects: map<int, Rect>) {
    th.cell in rects && th.rowspan == rects[th.cell].height && th.colspan == rects[th.cell].width
  }

  lemma {:induction false} RowHtmlOrdered(g: Grid, columns: nat, rects: map<int, Rect>, i: nat, j: nat)
    requires Tiling(g, columns, rects) && i < |g| && j <= columns
    ensures IsRow(RowHtml(g, columns, rects, i, j), rects, i)
    ensures forall th :: th in RowHtml(g, columns, rects, i, j) ==> rects[th.cell].left < j
  {
    if j > 0 {
      RowHtmlOrdered(g, columns, rects, i, j - 1);
    }
  }

  lemma {:induction false} RowHtmlHas(g: Grid, columns: nat, rects: map<int, Rect>, i: nat, j: nat, id: int)
    requires Tiling(g, columns, rects) && i < |g| && j <= columns
    requires id in rects && rects[id].top == i && rects[id].left < j
    ensures Th(id, rects[id].height, rects[id].width) in RowHtml(g, columns, rects, i, j)
  {
    if rects[id].left == j - 1 {
      assert Fits(rects[id], |g|, columns);
      assert Inside(rects[id], i, j - 1);
      assert g[i][j - 1] == id;
    } else {
      RowHtmlHas(g, columns, rects, i, j - 1, id);
    }
  }

  // The HTML shows every cell of the tiling, in the row it starts in and with its spans, and no
  // cell twice.
  lemma HtmlOnce(g: Grid, columns: nat, rects: map<int, Rect>)
    requires Tiling(g, columns, rects)
    ensures var html := Html(g, columns, rects);
      (forall id :: id in rects ==> Th(id, rects[id].height, rects[id].width) in html[rects[id].top]) &&
      (forall i :: 0 <= i < |html| ==> IsRow(html[i], rects, i))
  {
    var html := Html(g, columns, rects);
    forall i | 0 <= i < |html|
      ensures IsRow(html[i], rects, i)
    {
      RowHtmlOrdered(g, columns, rects, i, columns);
    }
    forall id | id in rects
      ensures Th(id, rects[id].height, rects[id].width) in html[rects[id].top]
    {
      assert Fits(rects[id], |g|, columns);
      RowHtmlHas(g, columns, rects, rects[id].top, columns, id);
    }
  }

  // How many of the first j columns are shown.
  function Count(shown: seq<bool>, j: nat): (n: nat)
    requires j <= |shown|
    ensures n <= j
  {
    if j == 0 then 0 else Count(shown, j - 1) + if shown[j - 1] then 1 else 0
  }

  // What is shown of the first j columns of a row.
  function Keep<T>(row: seq<T>, shown: seq<bool>, j: nat): (r: seq<T>)
    requires j <= |row| == |shown|
    ensures |r| == Count(shown, j)
  {
    if j == 0 then []
    else Keep(row, shown, j - 1) + if shown[j - 1] then [row[j - 1]] else []
  }

  ghost function Restrict(g: Grid, columns: nat, shown: seq<bool>): Grid
    requires Rectangular(g, columns) && |shown| == columns
  {
    seq(|g|, i requires 0 <= i < |g| => Keep(g[i], shown, columns))
  }

  // The rectangle of a cell among the shown columns; a cell without a shown column has none.
  function Shrunk(r: Rect, shown: seq<bool>): Rect
    requires r.left + r.width <= |shown| && Count(shown, r.left) <= Count(shown, r.left + r.width)
  {
    Rect(r.top, Count(shown, r.left), r.height, Count(shown, r.left + r.width) - Count(shown, r.left))
  }

  function RestrictRects(rects: map<int, Rect>, shown: seq<bool>): map<int, Rect> {
    map id | id in rects && rects[id].left + rects[id].width <= |shown| &&
      Count(shown, rects[id].left) < Count(shown, rects[id].left + rects[id].width) :: Shrunk(rects[id], shown)
  }

  lemma {:induction false} CountMonotone(shown: seq<bool>, j: nat, k: nat)
    requires j <= k <= |shown|
    ensures Count(shown, j) <= Count(shown, k)
  {
    if j < k { CountMonotone(shown, j, k - 1); }
  }

  // Column b of the shown ones is column Source(shown, j, b) of all.
  function Source(shown: seq<bool>, j: nat, b: nat): (s: nat)
    requires j <= |shown| && b < Count(shown, j)
    ensures s < j && shown[s] && Count(shown, s) == b
  {
    if shown[j - 1] && Count(shown, j - 1) == b then j - 1 else Source(shown, j - 1, b)
  }

  lemma {:induction false} KeepAt<T>(row: seq<T>, shown: seq<bool>, j: nat, b: nat)
    requires j <= |row| == |shown| && b < Count(shown, j)
    ensures Keep(row, shown, j)[b] == row[Source(shown, j, b)]
  {
    if b < Count(shown, j - 1) {
      KeepAt(row, shown, j - 1, b);
    }
  }

  // A position is inside the rectangle of a cell exactly when its source is.
  lemma InsideShrunk(r: Rect, shown: seq<bool>, i: int, b: nat)
    requires r.left + r.width <= |shown| && b < Count(shown, |shown|) && Count(shown, r.left) <= Count(shown, r.left + r.width)
    ensures Inside(Shrunk(r, shown), i, b) <==> Inside(r, i, Source(shown, |shown|, b))
    ensures Inside(r, i, Source(shown, |shown|, b)) ==> Count(shown, r.left) < Count(shown, r.left + r.width)
  {
    var s := Source(shown, |shown|, b);
    if s < r.left { CountMonotone(shown, s + 1, r.left); } else { CountMonotone(shown, r.left, s); }
    if s < r.left + r.width { CountMonotone(shown, s + 1, r.left + r.width); } else { CountMonotone(shown, r.left + r.width, s); }
  }

  // A shown position belongs to a cell that has a shrunk rectangle, which it is inside of.
  lemma ShownInside(g: Grid, columns: nat, rects: map<int, Rect>, shown: seq<bool>, i: nat, b: nat)
    requires Tiling(g, columns, rects) && |shown| == columns && i < |g| && b < Count(shown, columns)
    ensures var id := Keep(g[i], shown, columns)[b];
      id in RestrictRects(rects, shown) && Inside(RestrictRects(rects, shown)[id], i, b)
  {
    var s := Source(shown, columns, b);
    KeepAt(g[i], shown, columns, b);
    var id := g[i][s];
    assert id in rects && Inside(rects[id], i, s) && Fits(rects[id], |g|, columns);
    CountMonotone(shown, rects[id].left, rects[id].left + rects[id].width);
    InsideShrunk(rects[id], shown, i, b);
  }

  // A shrunk rectangle fits the shown columns and holds its own cell only.
  lemma ShrunkOwns(g: Grid, columns: nat, rects: map<int, Rect>, shown: seq<bool>, id: int)
    requires Tiling(g, columns, rects) && |shown| == columns && id in RestrictRects(rects, shown)
    ensures var r := RestrictRects(rects, shown)[id];
      Fits(r, |g|, Count(shown, columns)) &&
      forall i, b :: Inside(r, i, b) ==> Keep(g[i], shown, columns)[b] == id
  {
    hide Count;
    hide Keep;
    hide Source;
    var r := rects[id];
    var r' := RestrictRects(rects, shown)[id];
    assert Fits(r, |g|, columns);
    CountMonotone(shown, r.left, r.left + r.width);
    CountMonotone(shown, r.left + r.width, columns);
    forall i, b | Inside(r', i, b)
      ensures Keep(g[i], shown, columns)[b] == id
    {
      InsideShrunk(r, shown, i, b);
      KeepAt(g[i], shown, columns, b);
      assert g[i][Source(shown, columns, b)] == id;
    }
  }

  // Hiding columns leaves a tiling by the shrunk rectangles.
  lemma RestrictTiles(g: Grid, columns: nat, rects: map<int, Rect>, shown: seq<bool>)
    requires Tiling(g, columns, rects) && |shown| == columns
    ensures Tiling(Restrict(g, columns, shown), Count(shown, columns), RestrictRects(rects, shown))
  {
    hide RestrictRects;
    hide Count;
    hide Keep;
    forall id | id in RestrictRects(rects, shown) {
      ShrunkOwns(g, columns, rects, shown, id);
    }
    forall i: nat, b: nat | i < |g| && b < Count(shown, columns) {
      ShownInside(g, columns, rects, shown, i, b);
    }
  }
}
