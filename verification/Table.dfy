/** A table held in the browser: a row store, the master list of positions in sorted order, the list
    of those displayed, the searches, the paging cursor and the row nodes made so far. Each operation
    is a method on the settings, and a function on the state that the method is proved to follow. */
module Table {
  import opened IndexLists
  import opened Selections
  import opened TableRows
  import opened TableSearch
  import TableSort
  import opened Paging

  datatype Features = Features(filter: bool, sort: bool, deferRender: bool)

  datatype State = State(
    features: Features,
    rows: seq<Row>, master: seq<int>, display: seq<int>,
    start: int, length: int,
    search: Search, columns: seq<Search>,
    sorting: seq<TableSort.Column>, sorted: bool,
    index: map<int, int>, nodes: int)

  // ----- nodes

  // A row without a node gets one, which knows the position of its row.
  function CreateNode(s: State, i: int): State {
    if 0 <= i < |s.rows| && s.rows[i].node == -1 then
      s.(rows := s.rows[i := s.rows[i].(node := s.nodes)], index := s.index[s.nodes := i], nodes := s.nodes + 1)
    else s
  }

  function CreateNodes(s: State, shown: seq<int>): State {
    if shown == [] then s else CreateNode(CreateNodes(s, shown[..|shown| - 1]), shown[|shown| - 1])
  }

  function Reindexed(rows: seq<Row>, index: map<int, int>, n: nat): map<int, int>
    requires n <= |rows|
  {
    if n == 0 then index
    else
      var before := Reindexed(rows, index, n - 1);
      if rows[n - 1].node != -1 then before[rows[n - 1].node := n - 1] else before
  }

  // ----- rows

  function Add(s: State, data: int, keys: seq<Key>, cells: seq<string>): State {
    var i := |s.rows|;
    var t := s.(rows := s.rows + [Row(data, -1, keys, cells, false)], master := s.master + [i]);
    if s.features.deferRender then t else CreateNode(t, i)
  }

  function Clear(s: State): State { s.(rows := [], master := [], display := []) }

  // New data for a row: what was cached of it is out of date.
  function Update(s: State, i: int, data: int, keys: seq<Key>, cells: seq<string>): State {
    if 0 <= i < |s.rows| then
      s.(rows := s.rows[i := Row(data, s.rows[i].node, keys, cells, false)])
    else s
  }

  function Remove(s: State, r: int): State
    requires PageLength(s.length)
  {
    var rows := if 0 <= r < |s.rows| then Without(s.rows, r) else s.rows;
    var display := Deleted(s.display, r);
    s.(rows := rows, index := Reindexed(rows, s.index, |rows|),
       master := Deleted(s.master, r), display := display,
       start := LengthOverflow(s.start, s.length, |display|))
  }

  // Each row removed renumbers the rest of the selection.
  function RemoveAll(s: State, sel: seq<int>): State
    requires PageLength(s.length)
    decreases |sel|
  {
    if sel == [] then s else RemoveAll(Remove(s, sel[0]), Rest(sel))
  }

  // ----- searching

  predicate Passes(q: Search, text: string) { q.text == "" || Matches(q, text) }

  function Hits(rows: seq<Row>, q: Search): set<int> {
    set i | 0 <= i < |rows| && Passes(q, RowText(rows[i]))
  }

  function ColumnHits(rows: seq<Row>, col: nat, q: Search): set<int> {
    set i | 0 <= i < |rows| && Passes(q, CellText(rows[i], col))
  }

  function Cached(rows: seq<Row>): set<int> { set i | 0 <= i < |rows| && rows[i].cached }

  function CacheAll(rows: seq<Row>): (r: seq<Row>)
    ensures |r| == |rows|
  {
    seq(|rows|, i requires 0 <= i < |rows| => rows[i].(cached := true))
  }

  predicate Stale(rows: seq<Row>) { exists i :: 0 <= i < |rows| && !rows[i].cached }

  // Must the search start from the master list again?
  predicate Afresh(s: State, q: Search, force: bool) {
    Stale(s.rows) || force || !(s.search.text <= q.text) || s.sorted
  }

  function FilterRows(s: State, q: Search, force: bool): State {
    var rows := CacheAll(s.rows);
    s.(rows := rows, display :=
      if q.text == "" then s.master
      else Filter(if Afresh(s, q, force) then s.master else s.display, Hits(rows, q)))
  }

  // The first n column searches.
  function FilterColumns(rows: seq<Row>, display: seq<int>, columns: seq<Search>, n: nat): seq<int>
    requires n <= |columns|
  {
    if n == 0 then display
    else Filter(FilterColumns(rows, display, columns, n - 1), ColumnHits(rows, n - 1, columns[n - 1]))
  }

  function FilterComplete(s: State, q: Search, force: bool): State {
    var t := FilterRows(s, q, force);
    t.(search := q, display := FilterColumns(t.rows, t.display, s.columns, |s.columns|))
  }

  // ----- sorting, drawing and paging

  function Sort(s: State): State {
    s.(master := if s.sorting == [] then s.master else TableSort.StableSort(s.rows, s.sorting, s.master), sorted := true)
  }

  // The displayed rows of the page.
  function Window(s: State): seq<int>
    requires PageLength(s.length)
  {
    var end := DisplayEnd(s.start, s.length, |s.display|);
    if 0 <= s.start < end then s.display[s.start..end] else []
  }

  // There is no row to draw in front of the first one: a TypeError, with nothing drawn yet.
  predicate DrawThrows(s: State)
    requires PageLength(s.length)
  {
    s.display != [] && s.start < 0 && s.start < DisplayEnd(s.start, s.length, |s.display|)
  }

  function Draw(s: State): State
    requires PageLength(s.length)
  {
    if DrawThrows(s) then s else CreateNodes(s, Window(s)).(sorted := false)
  }

  // A full redraw: sort, search again, go to the first page and draw.
  function Redraw(s: State): State
    requires PageLength(s.length)
  {
    var t := if s.features.sort then Sort(s) else s;
    var u := if s.features.filter then FilterComplete(t, t.search, false) else t.(display := t.master);
    Draw(u.(start := 0))
  }

  // What typing into the search box does.
  function Type(s: State, text: string): State
    requires PageLength(s.length)
  {
    if text == s.search.text then s
    else Draw(FilterComplete(s, s.search.(text := text), false).(start := 0))
  }

  function SearchFor(s: State, q: Search): State {
    if s.features.filter then FilterComplete(s, q, true) else s
  }

  function SearchColumn(s: State, col: int, q: Search): State {
    if s.features.filter && 0 <= col < |s.columns| then
      FilterComplete(s.(columns := s.columns[col := q]), s.search, true)
    else s
  }

  // A jump to a negative page moves the cursor in front of the rows, and drawing throws.
  function Page(s: State, action: Action): State
    requires PageLength(s.length)
  {
    var start := PageChange(s.start, s.length, |s.display|, action);
    if start == s.start then s else Draw(s.(start := start))
  }

  function Length(s: State, len: int): State
    requires PageLength(len)
  {
    s.(length := len, start := LengthOverflow(s.start, len, |s.display|))
  }

  // ----- coherence

  ghost predicate Distinct(rows: seq<Row>) {
    forall i, j :: 0 <= i < j < |rows| && rows[i].node != -1 ==> rows[i].node != rows[j].node
  }

  // Nodes are distinct, were made before, and know the positions of their rows.
  ghost predicate NodesFit(rows: seq<Row>, index: map<int, int>, nodes: int) {
    0 <= nodes && forall i :: 0 <= i < |rows| && rows[i].node != -1 ==>
      0 <= rows[i].node < nodes && rows[i].node in index && index[rows[i].node] == i
  }

  ghost predicate Permutation(master: seq<int>, n: nat) {
    Unique(master) && |master| == n && forall x :: x in master <==> 0 <= x < n
  }

  ghost predicate Subset(display: seq<int>, n: nat) {
    Unique(display) && forall x :: x in display ==> 0 <= x < n
  }

  ghost predicate Coherent(s: State) {
    Permutation(s.master, |s.rows|) && Subset(s.display, |s.rows|) &&
    NodesFit(s.rows, s.index, s.nodes) &&
    PageLength(s.length)
  }

  // ----- the text of a row

  // A word without spaces is found in a row exactly when it is found in one of its cells: the two spaces
  // between the cells keep it from being found across them.
  lemma {:induction false} FoundInCell(cells: seq<string>, w: string, insensitive: bool)
    requires w != "" && ' ' !in w
    ensures Found(Joined(cells), w, insensitive) <==> FoundInOne(cells, w, insensitive)
  {
    hide Found;
    if cells == [] {
      NothingFound(w, insensitive);
    } else if |cells| == 1 {
      assert cells[0] == Joined(cells);
    } else {
      var n := |cells| - 1;
      var before, last := Joined(cells[..n]), cells[n];
      FoundInCell(cells[..n], w, insensitive);
      assert Joined(cells) == before + [' '] + ([' '] + last) == before + "  " + last;
      if Found(Joined(cells), w, insensitive) {
        FoundApart(before, ' ', [' '] + last, w, insensitive);
        if !Found(before, w, insensitive) {
          assert [' '] + last == "" + [' '] + last;
          FoundApart("", ' ', last, w, insensitive);
          NothingFound(w, insensitive);
          assert Found(cells[n], w, insensitive);
        } else {
          var k :| 0 <= k < n && Found(cells[..n][k], w, insensitive);
          assert Found(cells[k], w, insensitive);
        }
      }
      if k :| 0 <= k < |cells| && Found(cells[k], w, insensitive) {
        if k < n {
          assert Found(cells[..n][k], w, insensitive);
          FoundIn("", before, "  " + last, w, insensitive);
          assert "" + before + ("  " + last) == Joined(cells);
        } else {
          FoundIn(before + "  ", last, "", w, insensitive);
          assert before + "  " + last + "" == Joined(cells);
        }
      }
    }
  }

  lemma FoundIn(a: string, b: string, c: string, w: string, insensitive: bool)
    requires Found(b, w, insensitive)
    ensures Found(a + b + c, w, insensitive)
  {
    hide Found;
    FoundPart(a, b, c, w, insensitive);
  }

  lemma NothingFound(w: string, insensitive: bool)
    requires w != ""
    ensures !Found("", w, insensitive)
  {
  }

  lemma TwoCells(row: Row, a: string, b: string)
    requires row.cells == [a, b]
    ensures RowText(row) == a + "  " + b
  {
    assert row.cells[..1] == [a] && Joined([a]) == a && row.cells[1] == b;
  }
}
