/** Searching a table: a search that only narrows the last result shows what a search of all rows would,
    and every other operation leaves the result fit to be narrowed. */
module TableFiltering {
  import opened IndexLists
  import opened Selections
  import opened TableRows
  import opened TableSearch
  import opened Table
  import opened TableCoherence

  // The rows that pass the global search and every column search.
  function Shown(rows: seq<Row>, q: Search, columns: seq<Search>): set<int> {
    set i | 0 <= i < |rows| && Passes(q, RowText(rows[i])) && PassesColumns(rows[i], columns)
  }

  predicate PassesColumns(row: Row, columns: seq<Search>) {
    forall c :: 0 <= c < |columns| ==> Passes(columns[c], CellText(row, c))
  }

  // The displayed rows with cached text are, in order, those of the master list that pass all searches.
  ghost predicate Filtered(s: State) {
    s.features.filter ==>
      Filter(s.display, Cached(s.rows)) == Filter(s.master, Cached(s.rows) * Shown(s.rows, s.search, s.columns))
  }

  // ----- what a search shows

  lemma {:induction false} ColumnsShow(rows: seq<Row>, xs: seq<int>, q: Search, columns: seq<Search>, n: nat)
    requires n <= |columns| && Subset(xs, |rows|)
    ensures FilterColumns(rows, Filter(xs, Hits(rows, q)), columns, n) == Filter(xs, Shown(rows, q, columns[..n]))
  {
    hide Passes;
    if n == 0 {
      FilterSame(xs, Hits(rows, q), Shown(rows, q, columns[..0]));
    } else {
      ColumnsShow(rows, xs, q, columns, n - 1);
      var f, g := Shown(rows, q, columns[..n - 1]), ColumnHits(rows, n - 1, columns[n - 1]);
      FilterTwice(xs, f, g);
      forall x | x in xs ensures x in f * g <==> x in Shown(rows, q, columns[..n]) {
        PassesOneMore(rows[x], columns, n);
      }
      FilterSame(xs, f * g, Shown(rows, q, columns[..n]));
    }
  }

  lemma PassesOneMore(row: Row, columns: seq<Search>, n: nat)
    requires 0 < n <= |columns|
    ensures PassesColumns(row, columns[..n]) <==>
      PassesColumns(row, columns[..n - 1]) && Passes(columns[n - 1], CellText(row, n - 1))
  {
    hide Passes;
    assert forall c :: 0 <= c < n - 1 ==> columns[..n][c] == columns[..n - 1][c];
    assert columns[..n][n - 1] == columns[n - 1];
  }

  // May a result of p be searched again for q?
  predicate Reusable(p: Search, q: Search) { p.text == "" || (SameFlags(p, q) && Narrows(p, q)) }

  lemma ReusableSelf(q: Search)
    ensures Reusable(q, q)
  {
    hide Words;
    hide Found;
    if q.smart {
      var ws := Words(q.text);
      forall k | 0 <= k < |ws| ensures FoundInOne(ws, ws[k], q.insensitive) { FoundSelf(ws[k], q.insensitive); }
    } else {
      FoundSelf(q.text, q.insensitive);
    }
  }

  lemma ReusableNarrows(p: Search, q: Search, text: string)
    requires Reusable(p, q) && Passes(q, text) && p.text <= q.text
    ensures Passes(p, text)
  {
    if p.text != "" { NarrowsSuffices(p, q, text); }
  }

  // Where the search starts from does not matter to what the searches leave of it.
  lemma CompleteIs(s: State, q: Search, force: bool)
    requires Coherent(s)
    ensures var t := FilterComplete(s, q, force);
      t == s.(rows := CacheAll(s.rows), search := q, display := Filter(
        if q.text == "" || Afresh(s, q, force) then s.master else s.display, Shown(t.rows, q, s.columns)))
  {
    hide Afresh;
    hide Hits;
    hide Shown;
    var rows := CacheAll(s.rows);
    var xs := if q.text == "" || Afresh(s, q, force) then s.master else s.display;
    if q.text == "" { AllHit(rows, s.master, q); }
    assert FilterRows(s, q, force).display == Filter(xs, Hits(rows, q));
    ColumnsShow(rows, xs, q, s.columns, |s.columns|);
    assert s.columns[..|s.columns|] == s.columns;
  }

  lemma AllHit(rows: seq<Row>, xs: seq<int>, q: Search)
    requires q.text == "" && Subset(xs, |rows|)
    ensures Filter(xs, Hits(rows, q)) == xs
  {
    FilterAll(xs, Hits(rows, q));
  }

  lemma ShownNarrows(rows: seq<Row>, p: Search, q: Search, columns: seq<Search>)
    requires Reusable(p, q) && p.text <= q.text
    ensures Shown(rows, q, columns) <= Shown(rows, p, columns)
  {
    hide Passes;
    hide Reusable;
    forall i | 0 <= i < |rows| && Passes(q, RowText(rows[i])) ensures Passes(p, RowText(rows[i])) {
      ReusableNarrows(p, q, RowText(rows[i]));
    }
  }

  // Searching the last result for something narrower is searching everything.
  lemma ReuseIsFull(s: State, q: Search)
    requires Coherent(s) && Filtered(s) && s.features.filter && !Stale(s.rows)
    requires Reusable(s.search, q) && s.search.text <= q.text
    ensures Filter(s.display, Shown(s.rows, q, s.columns)) == Filter(s.master, Shown(s.rows, q, s.columns))
  {
    hide Shown;
    hide Reusable;
    var all, f, g := Cached(s.rows), Shown(s.rows, s.search, s.columns), Shown(s.rows, q, s.columns);
    FilterAll(s.display, all);
    ShownNarrows(s.rows, s.search, q, s.columns);
    FilterTwice(s.master, all * f, g);
    forall x | x in s.master ensures x in all * f * g <==> x in g {}
    FilterSame(s.master, all * f * g, g);
  }

  lemma CacheNone(rows: seq<Row>)
    requires !Stale(rows)
    ensures CacheAll(rows) == rows
  {
  }

  // The incremental search is the full one.
  lemma SearchIsFull(s: State, q: Search, force: bool)
    requires Coherent(s) && s.features.filter
    requires q.text == "" || Afresh(s, q, force) || (Filtered(s) && Reusable(s.search, q))
    ensures var t := FilterComplete(s, q, force);
      t.display == Filter(s.master, Shown(t.rows, q, s.columns)) && Filtered(t)
  {
    hide *;
    hide Coherent;
    var t := FilterComplete(s, q, force);
    CompleteIs(s, q, force);
    if q.text != "" && !Afresh(s, q, force) {
      NotAfresh(s, q, force);
      CacheNone(s.rows);
      ReuseIsFull(s, q);
    }
    FullIsFiltered(t);
  }

  lemma NotAfresh(s: State, q: Search, force: bool)
    requires !Afresh(s, q, force)
    ensures !Stale(s.rows) && s.search.text <= q.text && !s.sorted
  {
  }

  lemma FullIsFiltered(t: State)
    requires t.display == Filter(t.master, Shown(t.rows, t.search, t.columns))
    ensures Filtered(t)
  {
    hide Shown;
    var c, f := Cached(t.rows), Shown(t.rows, t.search, t.columns);
    FilterTwice(t.master, f, c);
    assert f * c == c * f;
  }

  // ----- what the other operations keep of it

  // The same texts, cached or not.
  ghost predicate SameText(a: seq<Row>, b: seq<Row>) {
    |a| == |b| && forall i :: 0 <= i < |a| ==> a[i].data == b[i].data && a[i].keys == b[i].keys && a[i].cells == b[i].cells
  }

  lemma TextShown(a: seq<Row>, b: seq<Row>, q: Search, columns: seq<Search>)
    requires SameText(a, b)
    ensures Shown(a, q, columns) == Shown(b, q, columns)
  {
    hide Passes;
    forall i | 0 <= i < |a| ensures RowText(a[i]) == RowText(b[i]) &&
      (PassesColumns(a[i], columns) <==> PassesColumns(b[i], columns)) {}
  }

  lemma SameShown(a: seq<Row>, b: seq<Row>, q: Search, columns: seq<Search>)
    requires SameData(a, b)
    ensures Shown(a, q, columns) == Shown(b, q, columns) && Cached(a) == Cached(b)
  {
    hide Passes;
    forall i | 0 <= i < |a| ensures RowText(a[i]) == RowText(b[i]) &&
      (PassesColumns(a[i], columns) <==> PassesColumns(b[i], columns)) {}
  }

  lemma DrawFiltered(s: State)
    requires Coherent(s) && Filtered(s)
    ensures Filtered(Draw(s))
  {
    hide Shown;
    hide Cached;
    NodesOnly(s, Window(s));
    SameShown(s.rows, Draw(s).rows, s.search, s.columns);
  }

  lemma CreateFiltered(s: State, i: int)
    requires Filtered(s)
    ensures Filtered(CreateNode(s, i))
  {
    hide Shown;
    hide Cached;
    SameShown(s.rows, CreateNode(s, i).rows, s.search, s.columns);
  }

  lemma AddFiltered(s: State, data: int, keys: seq<Key>, cells: seq<string>)
    requires Coherent(s) && Filtered(s)
    ensures Filtered(Add(s, data, keys, cells))
  {
    hide Passes;
    hide PassesColumns;
    var i := |s.rows|;
    var t := s.(rows := s.rows + [Row(data, -1, keys, cells, false)], master := s.master + [i]);
    var c, f := Cached(s.rows), Shown(s.rows, s.search, s.columns);
    var d, g := Cached(t.rows), Shown(t.rows, s.search, s.columns);
    assert c == d;
    FilterJoin(s.master, [i], d * g);
    assert Filter([i], d * g) == [];
    FilterSame(s.master, c * f, d * g);
    assert Filtered(t);
    CreateFiltered(t, i);
  }

  lemma RemoveFiltered(s: State, r: nat)
    requires Coherent(s) && Filtered(s) && r <= |s.rows|
    ensures Filtered(Remove(s, r))
  {
    hide Passes;
    hide PassesColumns;
    hide Filter;
    hide Deleted;
    if r == |s.rows| {
      RemoveNone(s.master, r);
      RemoveNone(s.display, r);
    } else {
      var rows := Without(s.rows, r);
      var c, f := Cached(s.rows), Shown(s.rows, s.search, s.columns);
      var d, g := Cached(rows), Shown(rows, s.search, s.columns);
      forall x | 0 <= x < |s.rows| && x != r
        ensures (x in c <==> Renumber(x, r) in d) && (x in f <==> Renumber(x, r) in g)
      {
        assert rows[Renumber(x, r)] == s.rows[x];
      }
      FilterDeleted(s.display, r, c, d);
      FilterDeleted(s.master, r, c * f, d * g);
    }
  }

  lemma UpdateFiltered(s: State, i: nat, data: int, keys: seq<Key>, cells: seq<string>)
    requires Coherent(s) && Filtered(s)
    ensures Filtered(Update(s, i, data, keys, cells))
  {
    hide Passes;
    hide PassesColumns;
    hide Filter;
    var t := Update(s, i, data, keys, cells);
    var c, f := Cached(s.rows), Shown(s.rows, s.search, s.columns);
    var d, g := Cached(t.rows), Shown(t.rows, s.search, s.columns);
    assert d <= c && d * g == c * f * d;
    FilterTwice(s.display, c, d);
    assert c * d == d;
    FilterTwice(s.master, c * f, d);
  }

  lemma {:induction false} RemoveAllFiltered(s: State, sel: seq<int>)
    requires Coherent(s) && Filtered(s) && Entries(sel, |s.rows|)
    ensures Filtered(RemoveAll(s, sel))
    decreases |sel|
  {
    hide *;
    hide Coherent;
    RemoveAllStep(s, sel);
    if sel != [] {
      RemoveFiltered(s, sel[0]);
      RemoveAllFiltered(Remove(s, sel[0]), Rest(sel));
    }
  }

  // ----- exactly when results may be reused

  // A search for q after one for p shows what it should in every table, without starting afresh.
  ghost predicate AlwaysExact(p: Search, q: Search) {
    forall s: State | Coherent(s) && Filtered(s) && s.features.filter && s.search == p && !Afresh(s, q, false) ::
      FilterComplete(s, q, false).display == Filter(s.master, Shown(s.rows, q, s.columns))
  }

  // Reuse is right exactly when every word of the old search is in a word of the new one (or nothing
  // matches the new one): not always, with quotes.
  lemma ReuseIff(p: Search, q: Search)
    requires SameFlags(p, q) && p.text <= q.text
    ensures AlwaysExact(p, q) <==> Reusable(p, q)
  {
    hide Filter;
    hide Shown;
    hide Coherent;
    hide Filtered;
    hide Matches;
    hide Narrows;
    if Reusable(p, q) {
      forall s: State | Coherent(s) && Filtered(s) && s.features.filter && s.search == p && !Afresh(s, q, false)
        ensures FilterComplete(s, q, false).display == Filter(s.master, Shown(s.rows, q, s.columns))
      {
        SearchIsFull(s, q, false);
        CacheNone(s.rows);
      }
    } else {
      NarrowerIff(p, q);
      var text :| Matches(q, text) && !Matches(p, text);
      var s := Counterexample(p, q, text);
    }
  }

  lemma Counterexample(p: Search, q: Search, text: string) returns (s: State)
    requires p.text != "" && p.text <= q.text && Matches(q, text) && !Matches(p, text)
    ensures Coherent(s) && Filtered(s) && s.features.filter && s.search == p && !Afresh(s, q, false)
    ensures FilterComplete(s, q, false).display != Filter(s.master, Shown(s.rows, q, s.columns))
  {
    hide Matches;
    hide Filter;
    hide FilterColumns;
    var row := Row(0, -1, [], [text], true);
    s := State.State(Features(true, true, true), [row], [0], [], 0, -1, p, [], [], false, map[], 0);
    OneRow(row, p);
    OneRow(row, q);
    OneEntry(Cached([row]));
    CompleteIs(s, q, false);
    CacheNone(s.rows);
  }

  lemma OneRow(row: Row, q: Search)
    requires |row.cells| == 1
    ensures Shown([row], q, []) == if Passes(q, row.cells[0]) then {0} else {}
  {
    hide Passes;
    assert RowText(row) == row.cells[0];
  }

  lemma OneEntry(c: set<int>)
    ensures Filter([0], {0}) == [0] && Filter([0], c * {}) == []
    ensures forall d :: Filter([], d) == []
  {
    assert c * {} == {} && [0][..0] == [];
  }

  // Typing on without quotes, or plainly, may always reuse the last result.
  lemma PlainTyping(p: Search, text: string)
    requires p.text <= text && (p.smart ==> Quote !in text)
    ensures Reusable(p, p.(text := text))
  {
    ExtensionNarrows(p, p.(text := text));
  }

  // A column search tests the cell of its own column, and one without input passes every row.
  lemma ColumnsPass(row: Row, columns: seq<Search>)
    requires |row.cells| == |columns|
    ensures PassesColumns(row, columns) <==>
      forall c :: 0 <= c < |columns| ==> columns[c].text == "" || Matches(columns[c], row.cells[c])
  {
    hide Matches;
    assert forall c :: 0 <= c < |columns| ==> CellText(row, c) == row.cells[c];
  }
}
