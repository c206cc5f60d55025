/** Runs of a table: any sequence of additions, removals, updates, sorts, searches, page changes and
    draws keeps the table coherent and its searches exact. */
module TableRuns {
  import opened IndexLists
  import opened TableRows
  import opened TableSearch
  import TableSort
  import opened Paging
  import Selections
  import opened TableCoherence
  import opened TableFiltering
  import opened Table

  datatype Op =
    | Add(data: int, keys: seq<Key>, cells: seq<string>)
    | Clear
    | Update(row: nat, data: int, keys: seq<Key>, cells: seq<string>)
    | Remove(selection: seq<int>)
    | Type(text: string)
    | SearchFor(search: Search)
    | SearchColumn(col: int, search: Search)
    | Order(sorting: seq<TableSort.Column>)
    | Redraw
    | Page(action: Action)
    | Length(len: int)

  // Selected rows exist, and what is typed is narrower than the search it goes on from.
  ghost predicate Legal(s: State, op: Op) {
    match op
    case Remove(sel) => Selection(sel, |s.rows|)
    case Type(text) => s.features.filter && (s.search.text <= text ==> Reusable(s.search, s.search.(text := text)))
    case Length(len) => PageLength(len)
    case _ => true
  }

  ghost predicate Sound(s: State) { Coherent(s) && Filtered(s) && !s.sorted }

  ghost function Step(s: State, op: Op): State
    requires Sound(s) && Legal(s, op)
  {
    match op
    case Add(data, keys, cells) => Table.Add(s, data, keys, cells)
    case Clear => Table.Clear(s)
    case Update(i, data, keys, cells) => Table.Update(s, i, data, keys, cells)
    case Remove(sel) => RemoveAll(s, sel)
    case Type(text) => Table.Type(s, text)
    case SearchFor(q) => Table.SearchFor(s, q)
    case SearchColumn(col, q) => Table.SearchColumn(s, col, q)
    case Order(sorting) => s.(sorting := sorting)
    case Redraw => Table.Redraw(s)
    case Page(action) => Table.Page(s, action)
    case Length(len) => Table.Length(s, len)
  }

  // The operations after which the displayed list is up to date.
  predicate Searches(s: State, op: Op) {
    s.features.filter &&
    match op
    case Type(text) => text != s.search.text
    case SearchFor(_) => true
    case SearchColumn(col, _) => 0 <= col < |s.columns|
    case Redraw => true
    case _ => false
  }

  // The displayed list is the master list without the rows that fail a search.
  ghost predicate Exact(s: State) {
    s.display == Filter(s.master, Shown(s.rows, s.search, s.columns))
  }

  // The list shows what passes the searches given, whatever searches the table holds.
  ghost predicate Shows(s: State, rows: seq<Row>, master: seq<int>, q: Search, columns: seq<Search>) {
    s.display == Filter(master, Shown(rows, q, columns)) && s.master == master && s.search == q && s.columns == columns &&
    SameText(rows, s.rows)
  }

  lemma SearchSound(s: State, q: Search, force: bool)
    requires Coherent(s) && s.features.filter
    requires q.text == "" || Table.Afresh(s, q, force) || (Filtered(s) && Reusable(s.search, q))
    ensures var t := Table.FilterComplete(s, q, force);
      Coherent(t) && Filtered(t) && Exact(t) && t.sorted == s.sorted && Shows(t, s.rows, s.master, q, s.columns)
  {
    hide Coherent;
    hide Filtered;
    hide Table.Afresh;
    hide Shown;
    FilterCoherent(s, q, force);
    CompleteIs(s, q, force);
    SearchIsFull(s, q, force);
    TextShown(s.rows, Table.FilterComplete(s, q, force).rows, q, s.columns);
  }

  // Every row on the page has its node.
  ghost predicate PageDrawn(s: State) {
    forall i :: 0 <= i < |s.rows| && OnShow(s, i) ==> s.rows[i].node != -1
  }

  // Drawing keeps what is displayed.
  lemma DrawSound(s: State)
    requires Coherent(s) && Filtered(s) && (s.sorted ==> 0 <= s.start)
    ensures Sound(Table.Draw(s)) && (Exact(s) ==> Exact(Table.Draw(s)))
    ensures var t := Table.Draw(s); t == s.(rows := t.rows, index := t.index, nodes := t.nodes, sorted := t.sorted) && SameText(s.rows, t.rows)
    ensures !DrawThrows(s) ==> PageDrawn(Table.Draw(s))
  {
    hide Shown;
    hide Cached;
    DrawCoherent(s);
    DrawFiltered(s);
    NodesOnly(s, Table.Window(s));
    SameShown(s.rows, Table.Draw(s).rows, s.search, s.columns);
  }

  // Typing searches for the text typed.
  lemma TypeSound(s: State, text: string)
    requires Sound(s) && Legal(s, Type(text))
    ensures Sound(Table.Type(s, text))
    ensures var t := Table.Type(s, text);
      if text == s.search.text then t == s
      else Exact(t) && t.start == 0 && PageDrawn(t) && Shows(t, s.rows, s.master, s.search.(text := text), s.columns)
  {
    hide Shown;
    if text != s.search.text {
      var q := s.search.(text := text);
      SearchSound(s, q, false);
      DrawSound(Table.FilterComplete(s, q, false).(start := 0));
    }
  }

  lemma ColumnSound(s: State, col: int, q: Search)
    requires Sound(s)
    ensures Sound(Table.SearchColumn(s, col, q))
    ensures var t := Table.SearchColumn(s, col, q);
      if s.features.filter && 0 <= col < |s.columns|
      then Exact(t) && t.start == s.start && Shows(t, s.rows, s.master, s.search, s.columns[col := q])
      else t == s
  {
    hide Shown;
    if s.features.filter && 0 <= col < |s.columns| {
      SearchSound(s.(columns := s.columns[col := q]), s.search, true);
      SearchCursor(s.(columns := s.columns[col := q]), s.search);
    }
  }

  // A redraw displays the sorted list without the rows that fail a search.
  lemma RedrawSound(s: State)
    requires Sound(s)
    ensures Sound(Table.Redraw(s)) && (s.features.filter ==> Exact(Table.Redraw(s))) && Table.Redraw(s).start == 0 && PageDrawn(Table.Redraw(s))
    ensures var t := Table.Redraw(s);
      var master := if s.features.sort then TableSort.StableSort(s.rows, s.sorting, s.master) else s.master;
      if s.features.filter then Shows(t, s.rows, master, s.search, s.columns)
      else t.display == t.master == master && t.search == s.search && t.columns == s.columns && SameText(s.rows, t.rows)
  {
    hide Shown;
    hide TableSort.StableSort;
    SortCoherent(s);
    TableSort.NoColumns(s.rows, s.master);
    var t := if s.features.sort then Table.Sort(s) else s;
    if s.features.filter {
      ReusableSelf(s.search);
      SearchSound(t, t.search, false);
      DrawSound(Table.FilterComplete(t, t.search, false).(start := 0));
    } else {
      DrawSound(t.(display := t.master, start := 0));
    }
  }

  lemma AddSound(s: State, data: int, keys: seq<Key>, cells: seq<string>)
    requires Sound(s)
    ensures Sound(Table.Add(s, data, keys, cells))
  {
    hide Coherent;
    hide Filtered;
    AddCoherent(s, data, keys, cells);
    AddFiltered(s, data, keys, cells);
  }

  lemma ClearSound(s: State)
    requires Sound(s)
    ensures Sound(Table.Clear(s))
  {
  }

  lemma UpdateSound(s: State, i: nat, data: int, keys: seq<Key>, cells: seq<string>)
    requires Sound(s)
    ensures Sound(Table.Update(s, i, data, keys, cells))
  {
    hide Filtered;
    UpdateFiltered(s, i, data, keys, cells);
  }

  lemma OrderSound(s: State, sorting: seq<TableSort.Column>)
    requires Sound(s)
    ensures Sound(s.(sorting := sorting))
  {
  }

  lemma PageSound(s: State, action: Action)
    requires Sound(s)
    ensures Sound(Table.Page(s, action))
  {
    hide Shown;
    hide Cached;
    hide PageChange;
    var start := PageChange(s.start, s.length, |s.display|, action);
    if start != s.start { DrawSound(s.(start := start)); }
  }

  lemma LengthSound(s: State, len: int)
    requires Sound(s) && PageLength(len)
    ensures Sound(Table.Length(s, len)) && OnPage(Table.Length(s, len).start, len, |s.display|)
  {
    hide Shown;
    hide LengthOverflow;
    OverflowEstablishes(s.start, len, |s.display|);
  }

  // Every operation keeps the table coherent, its last search exact, and nothing sorted undrawn.
  lemma StepSound(s: State, op: Op)
    requires Sound(s) && Legal(s, op)
    ensures Sound(Step(s, op))
  {
    hide Coherent;
    hide Filtered;
    hide Table.Add;
    hide Table.Type;
    hide Table.Redraw;
    hide Table.Page;
    hide Table.SearchColumn;
    hide Table.Length;
    hide RemoveAll;
    match op
    case Add(data, keys, cells) => AddSound(s, data, keys, cells);
    case Clear => ClearSound(s);
    case Update(i, data, keys, cells) => UpdateSound(s, i, data, keys, cells);
    case Remove(sel) =>
      RemoveAllIs(s, sel);
      RemoveAllFiltered(s, sel);
    case Type(text) => TypeSound(s, text);
    case SearchFor(q) => if s.features.filter { SearchSound(s, q, true); }
    case SearchColumn(col, q) => ColumnSound(s, col, q);
    case Order(sorting) => OrderSound(s, sorting);
    case Redraw => RedrawSound(s);
    case Page(action) => PageSound(s, action);
    case Length(len) => LengthSound(s, len);
  }

  ghost predicate LegalRun(s: State, ops: seq<Op>)
    requires Sound(s)
    decreases |ops|
  {
    ops == [] || (Legal(s, ops[0]) && (StepSound(s, ops[0]); LegalRun(Step(s, ops[0]), ops[1..])))
  }

  ghost function Run(s: State, ops: seq<Op>): (t: State)
    requires Sound(s) && LegalRun(s, ops)
    ensures Sound(t)
    decreases |ops|
  {
    if ops == [] then s
    else
      StepSound(s, ops[0]);
      Run(Step(s, ops[0]), ops[1..])
  }

  // A table before any row is added.
  ghost function Empty(features: Features, length: int, search: Search, columns: seq<Search>,
                       sorting: seq<TableSort.Column>): (s: State)
    requires PageLength(length)
    ensures Sound(s)
  {
    State.State(features, [], [], [], 0, length, search, columns, sorting, false, map[], 0)
  }

  // The searches an operation asks for.
  function AskedSearch(s: State, op: Op): Search {
    match op
    case Type(text) => s.search.(text := text)
    case SearchFor(q) => if s.features.filter then q else s.search
    case _ => s.search
  }

  function AskedColumns(s: State, op: Op): seq<Search> {
    match op
    case SearchColumn(col, q) => if s.features.filter && 0 <= col < |s.columns| then s.columns[col := q] else s.columns
    case _ => s.columns
  }

  // An operation that searches displays exactly the rows that pass the searches asked for, in master
  // order, which only a redraw changes: it sorts.
  lemma SearchesExact(s: State, op: Op)
    requires Sound(s) && Legal(s, op) && Searches(s, op)
    ensures Exact(Step(s, op))
    ensures Shows(Step(s, op), s.rows,
      if op.Redraw? && s.features.sort then TableSort.StableSort(s.rows, s.sorting, s.master) else s.master,
      AskedSearch(s, op), AskedColumns(s, op))
  {
    hide Coherent;
    hide Filtered;
    hide Exact;
    hide Shows;
    hide Table.Type;
    hide Table.Redraw;
    match op
    case Type(text) => TypeSound(s, text);
    case SearchFor(q) => SearchSound(s, q, true);
    case SearchColumn(col, q) => ColumnSound(s, col, q);
    case Redraw => RedrawSound(s);
  }

  // So it does at the end of any run from an empty table.
  lemma RunsExact(s: State, ops: seq<Op>, op: Op)
    requires PageLength(s.length) && s == Empty(s.features, s.length, s.search, s.columns, s.sorting)
    requires LegalRun(s, ops) && Legal(Run(s, ops), op)
    ensures Sound(Step(Run(s, ops), op))
    ensures var u, t := Run(s, ops), Step(Run(s, ops), op);
      Searches(u, op) ==> Exact(t) && Shows(t, u.rows, t.master, AskedSearch(u, op), AskedColumns(u, op))
  {
    hide Sound;
    hide Legal;
    hide Step;
    hide Run;
    hide Exact;
    hide AskedSearch;
    hide AskedColumns;
    StepSound(Run(s, ops), op);
    if Searches(Run(s, ops), op) { SearchesExact(Run(s, ops), op); }
  }

  // What every operation leaves as it is, and what it sets.
  lemma StepFrame(s: State, op: Op)
    requires Sound(s) && Legal(s, op)
    ensures var t := Step(s, op);
      t.features == s.features && t.search == AskedSearch(s, op) && t.columns == AskedColumns(s, op) &&
      t.sorting == (if op.Order? then op.sorting else s.sorting) && t.length == (if op.Length? then op.len else s.length)
    ensures op.Type? || op.SearchFor? || op.SearchColumn? || op.Order? || op.Redraw? || op.Page? || op.Length? ==>
      SameText(s.rows, Step(s, op).rows) && (op.Redraw? || Step(s, op).master == s.master)
    ensures op.Add? || op.Update? || op.Order? || op.Page? || op.Length? ==> Step(s, op).display == s.display
    ensures op.Clear? ==> Step(s, op).rows == [] && Step(s, op).master == [] && Step(s, op).display == []
    ensures op.Redraw? || (op.Type? && op.text != s.search.text) || (op.Page? && 0 <= Step(s, op).start != s.start) ==> PageDrawn(Step(s, op))
    ensures op.Page? ==> Step(s, op).start == PageChange(s.start, s.length, |s.display|, op.action)
    ensures op.Add? || op.Clear? || op.Update? || op.SearchFor? || op.SearchColumn? || op.Order? ==> Step(s, op).start == s.start
  {
    hide Permutation;
    hide Subset;
    hide NodesFit;
    hide Filtered;
    hide Shown;
    hide Exact;
    hide PageChange;
    hide LengthOverflow;
    hide RemoveAll;
    hide Table.Draw;
    hide Table.Add;
    hide Table.Redraw;
    hide FilterComplete;
    match op
    case Add(data, keys, cells) => AddCursor(s, data, keys, cells);
    case Remove(sel) => RemoveFrame(s, sel);
    case Type(text) =>
      TypeFrame(s, text);
      TypeSound(s, text);
    case SearchFor(q) =>
      if s.features.filter {
        SearchSound(s, q, true);
        SearchCursor(s, q);
      }
    case SearchColumn(col, q) =>
      if s.features.filter && 0 <= col < |s.columns| {
        var u := s.(columns := s.columns[col := q]);
        SearchSound(u, s.search, true);
        SearchCursor(u, s.search);
      }
    case Redraw =>
      RedrawFrame(s);
      RedrawSound(s);
    case Page(action) => PageFrame(s, action);
    case _ =>
  }

  // ----- the cursor

  predicate CursorOnPage(s: State) { OnPage(s.start, s.length, |s.display|) }

  // Operations after which the cursor is on a page whatever it was before.
  predicate Turns(s: State, op: Op) {
    match op
    case Remove(sel) => sel != []
    case Type(text) => text != s.search.text
    case Redraw => true
    case Length(_) => true
    case _ => false
  }

  // How many rows pass a search and the column searches.
  function Passing(s: State, q: Search, columns: seq<Search>): nat {
    |Filter(s.master, Shown(CacheAll(s.rows), q, columns))|
  }

  // When an operation leaves a cursor that is on a page on one: a jump has to be to a page there is,
  // and searches by API and clearing, which do not move the cursor, must leave it before the last row.
  predicate StaysOnPage(s: State, op: Op) {
    match op
    case Page(action) => action.Jump? ==> InRange(action.page, s.length, |s.display|)
    case Clear => s.start == 0
    case SearchFor(q) => s.features.filter ==> s.start == 0 || s.start < Passing(s, q, s.columns)
    case SearchColumn(col, q) =>
      s.features.filter && 0 <= col < |s.columns| ==> s.start == 0 || s.start < Passing(s, s.search, s.columns[col := q])
    case _ => true
  }

  lemma CursorStep(s: State, op: Op)
    requires Sound(s) && Legal(s, op)
    ensures Turns(s, op) ==> CursorOnPage(Step(s, op))
    ensures CursorOnPage(s) ==> (CursorOnPage(Step(s, op)) <==> StaysOnPage(s, op))
  {
    hide Filtered;
    hide Shown;
    hide FilterComplete;
    hide LengthOverflow;
    hide PageChange;
    hide InRange;
    hide RemoveAll;
    hide Table.Draw;
    hide Table.Add;
    match op
    case Add(data, keys, cells) => AddCursor(s, data, keys, cells);
    case Remove(sel) =>
      RemoveAllStep(s, sel);
      RemoveAllIs(s, sel);
    case Type(text) => TypeSound(s, text);
    case Redraw => RedrawSound(s);
    case Page(action) => if CursorOnPage(s) { PageCursor(s, action); }
    case Length(len) => OverflowEstablishes(s.start, len, |s.display|);
    case SearchFor(q) => if s.features.filter { SearchCursor(s, q); }
    case SearchColumn(col, q) =>
      if s.features.filter && 0 <= col < |s.columns| { SearchCursor(s.(columns := s.columns[col := q]), s.search); }
    case _ =>
  }

  lemma SearchCursor(s: State, q: Search)
    requires Coherent(s)
    ensures var t := FilterComplete(s, q, true);
      t == s.(rows := t.rows, search := q, display := t.display) && |t.display| == Passing(s, q, s.columns)
  {
    hide Shown;
    CompleteIs(s, q, true);
  }

  lemma AddCursor(s: State, data: int, keys: seq<Key>, cells: seq<string>)
    ensures var t := Table.Add(s, data, keys, cells); t == s.(rows := t.rows, master := t.master, index := t.index, nodes := t.nodes)
  {
  }

  lemma {:induction false} RemoveFrame(s: State, sel: seq<int>)
    requires PageLength(s.length)
    ensures var t := RemoveAll(s, sel);
      t == s.(rows := t.rows, master := t.master, display := t.display, start := t.start, index := t.index)
    decreases |sel|
  {
    hide Reindexed;
    hide Deleted;
    hide LengthOverflow;
    if sel != [] { RemoveFrame(Table.Remove(s, sel[0]), Selections.Rest(sel)); }
  }

  lemma TypeFrame(s: State, text: string)
    requires Sound(s) && Legal(s, Type(text))
    ensures var t := Table.Type(s, text);
      t == s.(rows := t.rows, display := t.display, start := t.start, search := s.search.(text := text), index := t.index, nodes := t.nodes, sorted := t.sorted) &&
      SameText(s.rows, t.rows)
  {
    hide Shown;
    if text != s.search.text {
      var q := s.search.(text := text);
      SearchSound(s, q, false);
      CompleteIs(s, q, false);
      DrawSound(Table.FilterComplete(s, q, false).(start := 0));
    }
  }

  lemma RedrawFrame(s: State)
    requires Sound(s)
    ensures var t := Table.Redraw(s);
      t == s.(rows := t.rows, master := t.master, display := t.display, start := 0, index := t.index, nodes := t.nodes, sorted := t.sorted) &&
      SameText(s.rows, t.rows)
  {
    hide Shown;
    hide TableSort.StableSort;
    RedrawSound(s);
    SortCoherent(s);
    var t := if s.features.sort then Table.Sort(s) else s;
    if s.features.filter {
      ReusableSelf(s.search);
      SearchSound(t, t.search, false);
      CompleteIs(t, t.search, false);
      DrawSound(Table.FilterComplete(t, t.search, false).(start := 0));
    } else {
      DrawSound(t.(display := t.master, start := 0));
    }
  }

  lemma PageFrame(s: State, action: Action)
    requires Sound(s)
    ensures var t := Table.Page(s, action);
      t == s.(rows := t.rows, start := PageChange(s.start, s.length, |s.display|, action), index := t.index, nodes := t.nodes) &&
      SameText(s.rows, t.rows) && (t.start != s.start && t.start >= 0 ==> PageDrawn(t))
  {
    hide Shown;
    hide PageChange;
    var start := PageChange(s.start, s.length, |s.display|, action);
    DrawSound(s.(start := start));
  }

  lemma PageCursor(s: State, action: Action)
    requires Sound(s) && CursorOnPage(s)
    ensures CursorOnPage(Table.Page(s, action)) <==> StaysOnPage(s, Page(action))
  {
    hide PageChange;
    hide InRange;
    var start := PageChange(s.start, s.length, |s.display|, action);
    PageChangeKeeps(s.start, s.length, |s.display|, action);
    NodesOnly(s.(start := start), Table.Window(s.(start := start)));
  }

  // Every operation of a run leaves the cursor on a page, or turns to one.
  ghost predicate PagedRun(s: State, ops: seq<Op>)
    requires Sound(s) && LegalRun(s, ops)
    decreases |ops|
  {
    ops == [] || (
      StepSound(s, ops[0]);
      (Turns(s, ops[0]) || StaysOnPage(s, ops[0])) && PagedRun(Step(s, ops[0]), ops[1..]))
  }

  // Then the cursor is on a page at its end.
  lemma {:induction false} RunsOnPage(s: State, ops: seq<Op>)
    requires Sound(s) && LegalRun(s, ops) && CursorOnPage(s) && PagedRun(s, ops)
    ensures CursorOnPage(Run(s, ops))
    decreases |ops|
  {
    hide Sound;
    hide Legal;
    hide Step;
    hide Turns;
    hide StaysOnPage;
    hide CursorOnPage;
    if ops != [] {
      StepSound(s, ops[0]);
      CursorStep(s, ops[0]);
      RunsOnPage(Step(s, ops[0]), ops[1..]);
    }
  }
}
