/** The settings object of a table, which the operations update in place. */
module TableSettings {
  import opened Arithmetic
  import opened IndexLists
  import opened Selections
  import opened TableRows
  import opened TableSearch
  import TableSort
  import opened Paging
  import opened Table
  import opened TableCoherence

  class Settings {
    const features: Features
    var rows: seq<Row>
    var master: seq<int>
    var display: seq<int>
    var start: int
    var length: int
    var search: Search
    var columns: seq<Search>
    var sorting: seq<TableSort.Column>
    var sorted: bool
    var index: map<int, int>
    var nodes: int

    ghost function Now(): State reads this {
      State.State(features, rows, master, display, start, length, search, columns, sorting, sorted, index, nodes)
    }

    ghost predicate Valid() reads this { Coherent(Now()) }

    constructor (features: Features, length: int, columns: seq<Search>)
      requires PageLength(length)
      ensures Valid()
      ensures Now() == State.State(features, [], [], [], 0, length, Search("", true, true), columns, [], false, map[], 0)
    {
      this.features := features;
      this.length := length;
      this.columns := columns;
      rows, master, display, start, sorting, sorted, index, nodes := [], [], [], 0, [], false, map[], 0;
      search := Search("", true, true);
    }

    method CreateTr(i: nat)
      requires i < |rows|
      modifies this
      ensures Now() == CreateNode(old(Now()), i)
    {
      if rows[i].node == -1 {
        rows := rows[i := rows[i].(node := nodes)];
        index := index[nodes := i];
        nodes := nodes + 1;
      }
    }

    method AddData(data: int, keys: seq<Key>, cells: seq<string>) returns (row: int)
      requires Valid()
      modifies this
      ensures Now() == Add(old(Now()), data, keys, cells) && Valid()
      ensures row == |old(rows)|
    {
      AddCoherent(Now(), data, keys, cells);
      row := |rows|;
      rows := rows + [Row(data, -1, keys, cells, false)];
      master := master + [row];
      if !features.deferRender {
        CreateTr(row);
      }
    }

    method ClearTable()
      requires Valid()
      modifies this
      ensures Now() == Clear(old(Now())) && Valid()
    {
      rows, master, display := [], [], [];
    }

    method Invalidate(i: nat, data: int, keys: seq<Key>, cells: seq<string>)
      requires Valid() && i < |rows|
      modifies this
      ensures Now() == Update(old(Now()), i, data, keys, cells) && Valid()
    {
      rows := rows[i := Row(data, rows[i].node, keys, cells, false)];
    }

    // rows().remove() for a selection of rows, repeated ones included.
    method RemoveRows(selection: seq<int>)
      requires Valid() && Selection(selection, |rows|)
      modifies this
      ensures Now() == RemoveAll(old(Now()), selection) && Valid()
      ensures rows == Survivors(old(rows), selection, |old(rows)|) <==> Harmless(selection, Range(|old(rows)|))
      ensures master == Dropped(old(master), selection) <==> Harmless(selection, Range(|old(rows)|))
      ensures display == Dropped(old(display), selection) <==> Harmless(selection, old(display))
    {
      hide Survivors;
      hide Dropped;
      hide Harmless;
      hide Range;
      hide RemoveAll;
      hide Remove;
      hide Reindexed;
      hide Rest;
      hide Coherent;
      hide Decremented;
      hide Deleted;
      hide Unique;
      hide PageLength;
      hide Without;
      hide Filter;
      hide Cut;
      hide LastIndex;
      RemoveAllExact(Now(), selection);
      assert Entries(selection, |rows|);
      hide Entries;
      RemoveAllStep(Now(), selection);
      var items := selection;
      assert items[0..] == items;
      for j := 0 to |selection|
        invariant |items| == |selection| && PageLength(length)
        invariant Valid() && Entries(items[j..], |rows|)
        invariant RemoveAll(Now(), items[j..]) == RemoveAll(old(Now()), selection)
      {
        ghost var s, rest := Now(), items[j..];
        assert rest[0] == items[j];
        RemoveAllStep(s, rest);
        RestDecremented(items, j);
        RemoveRow(items[j]);
        items := DeleteIndex(items, items[j], false);
        RemoveAllStep(Now(), items[j + 1..]);
      }
      RemoveAllStep(Now(), items[|selection|..]);
    }

    method RemoveRow(row: nat)
      requires Valid() && row <= |rows|
      modifies this
      ensures Now() == Remove(old(Now()), row)
    {
      hide Deleted;
      hide LengthOverflow;
      hide Reindexed;
      hide Cut;
      hide LastIndex;
      if row < |rows| {
        rows := rows[..row] + rows[row + 1..];
      }
      Reindex();
      master := DeleteIndex(master, row, true);
      display := DeleteIndex(display, row, true);
      start := LengthOverflow(start, length, |display|);
    }

    // Every node is told the position of its row.
    method Reindex()
      modifies this
      ensures Now() == old(Now()).(index := Reindexed(old(rows), old(index), |old(rows)|))
    {
      hide Reindexed;
      ReindexedStep(rows, index, 0);
      for i := 0 to |rows|
        invariant rows == old(rows) && Now() == old(Now()).(index := index)
        invariant index == Reindexed(rows, old(index), i)
      {
        ReindexedStep(rows, old(index), i + 1);
        if rows[i].node != -1 {
          index := index[rows[i].node := i];
        }
      }
    }

    // ----- searching

    method FilterData() returns (wasInvalidated: bool)
      modifies this
      ensures Now() == old(Now()).(rows := CacheAll(old(rows)))
      ensures wasInvalidated == Stale(old(rows))
    {
      wasInvalidated := false;
      for i := 0 to |rows|
        invariant |rows| == |old(rows)| && Now() == old(Now()).(rows := rows)
        invariant forall k :: 0 <= k < |rows| ==> rows[k] == if k < i then old(rows)[k].(cached := true) else old(rows)[k]
        invariant wasInvalidated <==> exists k :: 0 <= k < i && !old(rows)[k].cached
      {
        if !rows[i].cached {
          rows := rows[i := rows[i].(cached := true)];
          wasInvalidated := true;
        }
      }
      assert rows == CacheAll(old(rows));
    }

    method FilterGlobal(q: Search, force: bool)
      requires Valid()
      modifies this
      ensures Now() == FilterRows(old(Now()), q, force)
    {
      hide Matches;
      hide Filter;
      hide Hits;
      var invalidated := FilterData();
      if q.text == "" {
        display := master;
      } else {
        if invalidated || force || |search.text| > |q.text| || !(search.text <= q.text) || sorted {
          display := master;
        }
        ghost var s, keep := Now(), Hits(rows, q);
        SpliceNone(display, keep);
        var i := |display|;
        while i > 0
          invariant 0 <= i <= |s.display| && Now() == s.(display := display)
          invariant display == s.display[..i] + Filter(s.display[i..], keep)
        {
          i := i - 1;
          SpliceStep(s.display, i, keep, display);
          HitIs(rows, s.display, i, q);
          if !Matches(q, RowText(rows[display[i]])) {
            display := display[..i] + display[i + 1..];
          }
        }
      }
    }

    method FilterColumn(q: Search, col: nat)
      requires Valid()
      modifies this
      ensures Now() == old(Now()).(display := Filter(old(display), ColumnHits(rows, col, q)))
    {
      hide Matches;
      hide Filter;
      hide ColumnHits;
      ghost var s, keep := Now(), ColumnHits(rows, col, q);
      if q.text == "" {
        AllColumnHit(rows, display, col, q);
        return;
      }
      SpliceNone(display, keep);
      var i := |display|;
      while i > 0
        invariant 0 <= i <= |s.display| && Now() == s.(display := display)
        invariant display == s.display[..i] + Filter(s.display[i..], keep)
      {
        i := i - 1;
        SpliceStep(s.display, i, keep, display);
        ColumnHitIs(rows, s.display, i, col, q);
        if !Matches(q, CellText(rows[display[i]], col)) {
          display := display[..i] + display[i + 1..];
        }
      }
    }

    method FilterTable(q: Search, force: bool)
      requires Valid()
      modifies this
      ensures Now() == FilterComplete(old(Now()), q, force) && Valid()
    {
      hide Filter;
      hide Hits;
      hide Afresh;
      hide ColumnHits;
      FilterCoherent(Now(), q, force);
      GlobalCoherent(Now(), q, force);
      FilterGlobal(q, force);
      search := q;
      ghost var t := Now();
      for i := 0 to |columns|
        invariant columns == t.columns && rows == t.rows && i <= |columns|
        invariant Now() == t.(display := FilterColumns(t.rows, t.display, t.columns, i)) && Valid()
      {
        FilterSubset(display, |rows|, ColumnHits(rows, i, columns[i]));
        FilterColumn(columns[i], i);
      }
    }

    // ----- sorting, drawing and paging

    method SortMaster()
      requires Valid()
      modifies this
      ensures Now() == Sort(old(Now())) && Valid()
    {
      hide TableSort.StableSort;
      SortCoherent(Now());
      if sorting != [] {
        var orig := TableSort.RecordPositions(master);
        master := TableSort.ArraySort(rows, sorting, orig, master);
      }
      sorted := true;
    }

    method DrawTable() returns (thrown: bool)
      requires Valid()
      modifies this
      ensures Now() == Draw(old(Now())) && Valid() && thrown == DrawThrows(old(Now()))
    {
      DrawCoherent(Now());
      var end := DisplayEnd(start, length, |display|);
      ghost var s, shown := Now(), Window(Now());
      assert shown[..0] == [];
      if display != [] && start < end {
        if start < 0 {
          return true;
        }
        for j := start to end
          invariant start == s.start && |shown| == end - start
          invariant Now() == CreateNodes(s, shown[..j - start])
          invariant Now() == s.(rows := rows, index := index, nodes := nodes) && |rows| == |s.rows|
        {
          assert display[j] in s.display;
          ghost var k := j - start;
          assert shown[k] == display[j] && shown[..k + 1][..k] == shown[..k];
          CreateTr(display[j]);
        }
        assert shown[..|shown|] == shown;
      }
      sorted := false;
      thrown := false;
    }

    method ReDraw()
      requires Valid()
      modifies this
      ensures Now() == Redraw(old(Now())) && Valid()
    {
      hide FilterComplete;
      hide Sort;
      hide Draw;
      if features.sort {
        SortMaster();
      }
      if features.filter {
        FilterTable(search, false);
      } else {
        display := master;
      }
      start := 0;
      var thrown := DrawTable();
    }

    method ChangePage(action: Action) returns (thrown: bool)
      requires Valid()
      modifies this
      ensures Now() == Page(old(Now()), action) && Valid()
      ensures thrown <==> start < 0 && start != old(start)
      ensures old(start) >= 0 ==> (thrown <==> action.Jump? && action.page < 0 && old(display) != [] && length != -1)
    {
      hide Draw;
      NegativePage(start, length, |display|, action);
      var to := PageChange(start, length, |display|, action);
      var changed := start != to;
      start := to;
      thrown := false;
      DrawCoherent(Now());
      if changed {
        thrown := DrawTable();
      }
    }

    method ChangeLength(len: int)
      requires Valid() && PageLength(len)
      modifies this
      ensures Now() == Length(old(Now()), len) && Valid()
    {
      OverflowEstablishes(start, len, |display|);
      length := len;
      start := LengthOverflow(start, length, |display|);
    }

    method TypeSearch(text: string)
      requires Valid()
      modifies this
      ensures Now() == Type(old(Now()), text) && Valid()
    {
      if text != search.text {
        FilterTable(search.(text := text), false);
        start := 0;
        var thrown := DrawTable();
      }
    }

    method ApiSearch(q: Search)
      requires Valid()
      modifies this
      ensures Now() == SearchFor(old(Now()), q) && Valid()
    {
      if features.filter {
        FilterTable(q, true);
      }
    }

    method ApiColumnSearch(col: nat, q: Search)
      requires Valid() && col < |columns|
      modifies this
      ensures Now() == SearchColumn(old(Now()), col, q) && Valid()
    {
      if features.filter {
        columns := columns[col := q];
        FilterTable(search, true);
      }
    }
  }

  // Only a jump to a negative page moves the cursor in front of the rows.
  lemma NegativePage(start: int, len: int, records: nat, action: Action)
    requires PageLength(len)
    ensures var s := PageChange(start, len, records, action);
      (s < 0 ==> records > 0 && len > 0 && s < DisplayEnd(s, len, records)) &&
      (start >= 0 ==> (s < 0 <==> action.Jump? && action.page < 0 && records > 0 && len != -1))
  {
    if action.Jump? && len > 0 {
      ProductSign(action.page, len);
    }
  }

  lemma RestDecremented(items: seq<int>, j: nat)
    requires j < |items|
    ensures Decremented(items, items[j])[j + 1..] == Rest(items[j..])
  {
  }

  lemma ReindexedStep(rows: seq<Row>, index: map<int, int>, n: nat)
    requires n <= |rows|
    ensures Reindexed(rows, index, n) ==
      if n == 0 then index
      else if rows[n - 1].node == -1 then Reindexed(rows, index, n - 1)
      else Reindexed(rows, index, n - 1)[rows[n - 1].node := n - 1]
  {
  }

  lemma SpliceNone(xs: seq<int>, keep: set<int>)
    ensures xs == xs[..|xs|] + Filter(xs[|xs|..], keep)
    ensures xs[..0] + Filter(xs[0..], keep) == Filter(xs, keep)
  {
    assert xs[0..] == xs;
  }

  // A filter done backwards, entry by entry: xs is the list as it was, ys with the entries behind i
  // filtered.
  lemma SpliceStep(xs: seq<int>, i: nat, keep: set<int>, ys: seq<int>)
    requires i < |xs| && ys == xs[..i + 1] + Filter(xs[i + 1..], keep)
    ensures i < |ys| && ys[i] == xs[i]
    ensures xs[..i] + Filter(xs[i..], keep) == if xs[i] in keep then ys else ys[..i] + ys[i + 1..]
  {
    FilterJoin([xs[i]], xs[i + 1..], keep);
    assert xs[i..] == [xs[i]] + xs[i + 1..] && [xs[i]][..0] == [];
    assert Filter([xs[i]], keep) == if xs[i] in keep then [xs[i]] else [];
    assert xs[..i + 1] == xs[..i] + [xs[i]];
  }

  lemma HitIs(rows: seq<Row>, xs: seq<int>, i: nat, q: Search)
    requires Subset(xs, |rows|) && i < |xs| && q.text != ""
    ensures 0 <= xs[i] < |rows| && (xs[i] in Hits(rows, q) <==> Matches(q, RowText(rows[xs[i]])))
  {
    hide Matches;
    var x := xs[i];
    assert x in xs;
  }

  lemma ColumnHitIs(rows: seq<Row>, xs: seq<int>, i: nat, col: nat, q: Search)
    requires Subset(xs, |rows|) && i < |xs| && q.text != ""
    ensures 0 <= xs[i] < |rows| && (xs[i] in ColumnHits(rows, col, q) <==> Matches(q, CellText(rows[xs[i]], col)))
  {
    hide Matches;
    var x := xs[i];
    assert x in xs;
  }

  lemma AllColumnHit(rows: seq<Row>, xs: seq<int>, col: nat, q: Search)
    requires q.text == "" && Subset(xs, |rows|)
    ensures Filter(xs, ColumnHits(rows, col, q)) == xs
  {
    FilterAll(xs, ColumnHits(rows, col, q));
  }

  lemma GlobalCoherent(s: State, q: Search, force: bool)
    requires Coherent(s)
    ensures Coherent(FilterRows(s, q, force))
  {
    hide Hits;
    hide Afresh;
    FilterSubset(s.master, |s.rows|, Hits(CacheAll(s.rows), q));
    FilterSubset(s.display, |s.rows|, Hits(CacheAll(s.rows), q));
  }
}
