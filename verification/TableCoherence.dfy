/** What every operation on a table keeps: the master list is a permutation of the row positions, the
    displayed list a subset of it without duplicates, and every row node knows where its row is. */
module TableCoherence {
  import opened IndexLists
  import opened Selections
  import opened TableRows
  import opened TableSearch
  import TableSort
  import opened Paging
  import opened Table

  // ----- nodes

  ghost predicate SameData(a: seq<Row>, b: seq<Row>) {
    |a| == |b| && forall i :: 0 <= i < |a| ==>
      a[i].data == b[i].data && a[i].keys == b[i].keys && a[i].cells == b[i].cells && a[i].cached == b[i].cached
  }

  // Drawing changes the nodes and nothing else.
  lemma {:induction false} NodesOnly(s: State, shown: seq<int>)
    requires NodesFit(s.rows, s.index, s.nodes)
    ensures var t := CreateNodes(s, shown);
      NodesFit(t.rows, t.index, t.nodes) && SameData(s.rows, t.rows) &&
      t == s.(rows := t.rows, index := t.index, nodes := t.nodes)
    ensures var t := CreateNodes(s, shown); forall i :: 0 <= i < |s.rows| ==>
      if i in shown || s.rows[i].node != -1 then t.rows[i].node != -1 else t.rows[i].node == -1
    ensures var t := CreateNodes(s, shown); forall i :: 0 <= i < |s.rows| && s.rows[i].node != -1 ==> t.rows[i] == s.rows[i]
  {
    if shown != [] {
      NodesOnly(s, shown[..|shown| - 1]);
      assert shown == shown[..|shown| - 1] + [shown[|shown| - 1]];
    }
  }

  lemma DrawCoherent(s: State)
    requires Coherent(s)
    ensures Coherent(Draw(s)) && SameData(s.rows, Draw(s).rows)
    ensures Draw(s).start == s.start && Draw(s).length == s.length && Draw(s).display == s.display && Draw(s).master == s.master
    ensures !DrawThrows(s) ==> forall i :: 0 <= i < |s.rows| ==>
      (Draw(s).rows[i].node != -1 <==> s.rows[i].node != -1 || OnShow(s, i))
  {
    hide CreateNodes;
    NodesOnly(s, Window(s));
    if !DrawThrows(s) {
      forall i | 0 <= i < |s.rows| ensures i in Window(s) <==> OnShow(s, i) { WindowIs(s, i); }
    }
  }

  // A row is on the page shown: its place in the displayed list is from the cursor on, less than a page
  // length away.
  predicate OnShow(s: State, i: int) {
    exists j :: 0 <= j < |s.display| && s.display[j] == i && s.start <= j && (s.length == -1 || j < s.start + s.length)
  }

  lemma WindowIs(s: State, i: int)
    requires PageLength(s.length) && !DrawThrows(s)
    ensures i in Window(s) <==> OnShow(s, i)
  {
    var w := Window(s);
    if OnShow(s, i) {
      var j :| 0 <= j < |s.display| && s.display[j] == i && s.start <= j && (s.length == -1 || j < s.start + s.length);
      assert w[j - s.start] == i;
    }
    if i in w {
      var k :| 0 <= k < |w| && w[k] == i;
      assert s.display[s.start + k] == i;
    }
  }

  lemma {:induction false} ReindexedFits(rows: seq<Row>, index: map<int, int>, n: nat)
    requires n <= |rows| && Distinct(rows)
    ensures forall i :: 0 <= i < n && rows[i].node != -1 ==>
      rows[i].node in Reindexed(rows, index, n) && Reindexed(rows, index, n)[rows[i].node] == i
  {
    if n > 0 {
      ReindexedFits(rows, index, n - 1);
    }
  }

  lemma WithoutDistinct(rows: seq<Row>, r: nat)
    requires Distinct(rows) && r < |rows|
    ensures Distinct(Without(rows, r))
  {
  }

  lemma FitsDistinct(rows: seq<Row>, index: map<int, int>, nodes: int)
    requires NodesFit(rows, index, nodes)
    ensures Distinct(rows)
  {
  }

  // ----- rows

  lemma AddCoherent(s: State, data: int, keys: seq<Key>, cells: seq<string>)
    requires Coherent(s)
    ensures Coherent(Add(s, data, keys, cells))
    ensures var t := Add(s, data, keys, cells);
      t.rows[..|s.rows|] == s.rows && t.rows[|s.rows|] == Row(data, t.rows[|s.rows|].node, keys, cells, false) &&
      (t.rows[|s.rows|].node == -1 <==> s.features.deferRender) && t.master == s.master + [|s.rows|]
  {
    var master := s.master + [|s.rows|];
    assert |s.rows| !in s.master;
    forall i, j | 0 <= i < j < |master| ensures master[i] != master[j] { assert s.master[i] in s.master; }
  }

  // An updated row has its new data, nothing cached and its old node; nothing else changes.
  lemma UpdateCoherent(s: State, i: nat, data: int, keys: seq<Key>, cells: seq<string>)
    requires Coherent(s) && i < |s.rows|
    ensures var t := Update(s, i, data, keys, cells);
      Coherent(t) && t == s.(rows := t.rows) && |t.rows| == |s.rows| &&
      t.rows[i] == Row(data, s.rows[i].node, keys, cells, false) &&
      forall k :: 0 <= k < |s.rows| && k != i ==> t.rows[k] == s.rows[k]
  {
  }

  lemma RemovePermutation(master: seq<int>, n: nat, r: nat)
    requires Permutation(master, n) && r < n
    ensures Permutation(Deleted(master, r), n - 1)
  {
    DeletedUnique(master, r);
    DeletedMembers(master, r);
    forall y | 0 <= y < n - 1 ensures y in Deleted(master, r) {
      var x := if y < r then y else y + 1;
      assert x in master && Renumber(x, r) == y;
    }
  }

  lemma RemoveSubset(display: seq<int>, n: nat, r: nat)
    requires Subset(display, n) && r < n
    ensures Subset(Deleted(display, r), n - 1)
  {
    DeletedUnique(display, r);
    DeletedMembers(display, r);
  }

  lemma RemoveCoherent(s: State, r: nat)
    requires Coherent(s) && r <= |s.rows|
    ensures Coherent(Remove(s, r))
    ensures var t := Remove(s, r); OnPage(t.start, t.length, |t.display|) && BackedUp(s.start, s.length, |t.display|, t.start)
  {
    var rows := if r < |s.rows| then Without(s.rows, r) else s.rows;
    FitsDistinct(s.rows, s.index, s.nodes);
    if r < |s.rows| {
      RemovePermutation(s.master, |s.rows|, r);
      RemoveSubset(s.display, |s.rows|, r);
      WithoutDistinct(s.rows, r);
    } else {
      RemoveNone(s.master, r);
      RemoveNone(s.display, r);
    }
    ReindexedFits(rows, s.index, |rows|);
    OverflowEstablishes(s.start, s.length, |Deleted(s.display, r)|);
    OverflowIs(s.start, s.length, |Deleted(s.display, r)|);
  }

  lemma RemoveNone(a: seq<int>, n: nat)
    requires Subset(a, n)
    ensures Deleted(a, n) == a
  {
    forall k | 0 <= k < |a| ensures a[k] < n {
      var x := a[k];
      assert x in a;
    }
    DeletedHigh(a, n);
  }

  // A selection of rows, repeated ones allowed.
  predicate Selection(sel: seq<int>, n: int) {
    forall i :: 0 <= i < |sel| ==> 0 <= sel[i] < n
  }

  lemma RemoveAllStep(s: State, sel: seq<int>)
    requires Coherent(s) && Entries(sel, |s.rows|)
    ensures PageLength(s.length)
    ensures RemoveAll(s, sel) == if sel == [] then s else RemoveAll(Remove(s, sel[0]), Rest(sel))
    ensures sel != [] ==> 0 <= sel[0] <= |s.rows| && Entries(Rest(sel), |Remove(s, sel[0]).rows|) && Coherent(Remove(s, sel[0]))
    ensures sel != [] ==> Remove(s, sel[0]).sorted == s.sorted
    ensures sel != [] ==> Remove(s, sel[0]).rows == if sel[0] < |s.rows| then Without(s.rows, sel[0]) else s.rows
    ensures sel != [] ==> Remove(s, sel[0]).master == Deleted(s.master, sel[0])
    ensures sel != [] ==> Remove(s, sel[0]).display == Deleted(s.display, sel[0])
  {
    hide Reindexed;
    hide Deleted;
    hide LengthOverflow;
    if sel != [] {
      RestEntries(sel, |s.rows|);
      RemoveCoherent(s, sel[0]);
    }
  }

  // The removals leave the kept rows and the lists without what was deleted, and a coherent table.
  lemma {:induction false} RemoveAllIs(s: State, sel: seq<int>)
    requires Coherent(s) && Entries(sel, |s.rows|)
    ensures var t := RemoveAll(s, sel);
      Coherent(t) && t.rows == KeptRows(s.rows, sel) &&
      t.master == Deletions(s.master, sel) && t.display == Deletions(s.display, sel) && t.sorted == s.sorted
    ensures var t := RemoveAll(s, sel); sel != [] ==> OnPage(t.start, t.length, |t.display|)
    decreases |sel|
  {
    hide RemoveAll;
    hide Remove;
    hide Coherent;
    hide Deleted;
    hide Rest;
    hide Entries;
    hide OnPage;
    RemoveAllStep(s, sel);
    if sel != [] {
      RemoveCoherent(s, sel[0]);
      RemoveAllIs(Remove(s, sel[0]), Rest(sel));
      if |sel| == 1 { RemoveAllStep(Remove(s, sel[0]), Rest(sel)); }
    }
  }

  // Removing a selection, renumbered as it goes, removes the rows selected and no others exactly when
  // every row behind one that is selected twice is selected, too. The same holds for each index list,
  // of the rows in it.
  lemma RemoveAllExact(s: State, sel: seq<int>)
    requires Coherent(s) && Selection(sel, |s.rows|)
    ensures var t := RemoveAll(s, sel); Coherent(t) && (sel != [] ==> OnPage(t.start, t.length, |t.display|))
    ensures RemoveAll(s, sel).rows == Survivors(s.rows, sel, |s.rows|) <==> Harmless(sel, Range(|s.rows|))
    ensures RemoveAll(s, sel).master == Dropped(s.master, sel) <==> Harmless(sel, Range(|s.rows|))
    ensures RemoveAll(s, sel).display == Dropped(s.display, sel) <==> Harmless(sel, s.display)
    ensures Unique(sel) ==> Harmless(sel, Range(|s.rows|)) && Harmless(sel, s.display)
  {
    hide RemoveAll;
    hide OnPage;
    RemoveAllIs(s, sel);
    RowsExact(s.rows, sel);
    ListExact(s.master, sel);
    ListExact(s.display, sel);
    HarmlessPermutation(sel, s.master, |s.rows|);
  }

  lemma HarmlessPermutation(sel: seq<int>, master: seq<int>, n: nat)
    requires Permutation(master, n)
    ensures Harmless(sel, master) <==> Harmless(sel, Range(n))
  {
    hide RepeatsBelow;
    var rows := Range(n);
    if Harmless(sel, master) {
      forall x | 0 <= x < n && RepeatsBelow(sel, rows[x]) ensures rows[x] in sel {
        assert x in master;
        var k :| 0 <= k < n && master[k] == x;
      }
    }
    if Harmless(sel, rows) {
      forall k | 0 <= k < n && RepeatsBelow(sel, master[k]) ensures master[k] in sel {
        var x := master[k];
        assert x in master && rows[x] == x;
      }
    }
  }

  // The rows of two, the first of them selected twice: the second one goes along.
  lemma TwiceSelected(s: State)
    requires Coherent(s) && |s.rows| == 2
    ensures !Harmless([0, 0], Range(2)) && RemoveAll(s, [0, 0]).rows == [] != Survivors(s.rows, [0, 0], 2)
  {
    assert Decremented([0], 0) == [0];
    assert Decremented([], 0) == [];
    assert [0, 0][1..] == [0] && [0][1..] == [];
    assert [0, 0][0] == [0, 0][1] && Range(2)[1] == 1 && RepeatsBelow([0, 0], 1);
  }

  // ----- searching and sorting

  lemma FilterSubset(xs: seq<int>, n: nat, keep: set<int>)
    requires Subset(xs, n)
    ensures Subset(Filter(xs, keep), n)
  {
    FilterMembers(xs, keep);
  }

  lemma {:induction false} ColumnsSubset(rows: seq<Row>, xs: seq<int>, columns: seq<Search>, n: nat)
    requires Subset(xs, |rows|) && n <= |columns|
    ensures Subset(FilterColumns(rows, xs, columns, n), |rows|)
  {
    if n > 0 {
      ColumnsSubset(rows, xs, columns, n - 1);
      FilterSubset(FilterColumns(rows, xs, columns, n - 1), |rows|, ColumnHits(rows, n - 1, columns[n - 1]));
    }
  }

  lemma FilterCoherent(s: State, q: Search, force: bool)
    requires Coherent(s)
    ensures Coherent(FilterComplete(s, q, force))
  {
    hide ColumnHits;
    hide Hits;
    hide Afresh;
    var t := FilterRows(s, q, force);
    FilterSubset(s.master, |s.rows|, Hits(t.rows, q));
    FilterSubset(s.display, |s.rows|, Hits(t.rows, q));
    ColumnsSubset(t.rows, t.display, s.columns, |s.columns|);
  }

  lemma SortCoherent(s: State)
    requires Coherent(s)
    ensures Coherent(Sort(s))
  {
    hide TableSort.StableSort;
    TableSort.StableSortIs(s.rows, s.sorting, TableSort.PositionMap(s.master), s.master);
  }

  lemma RedrawCoherent(s: State)
    requires Coherent(s)
    ensures Coherent(Redraw(s))
  {
    hide FilterComplete;
    hide Sort;
    hide Draw;
    SortCoherent(s);
    var t := if s.features.sort then Sort(s) else s;
    FilterCoherent(t, t.search, false);
    var u := if s.features.filter then FilterComplete(t, t.search, false) else t.(display := t.master);
    DrawCoherent(u.(start := 0));
  }
}
