/** Sorting a table: its master list is sorted by the keys of any number of columns, with the
    positions before the sort as the tie-break. */
module TableSort {
  import opened IndexLists
  import opened TableRows

  datatype Column = Column(col: nat, ascending: bool)

  // The order of strings by code units, and of numbers as lists of one.
  predicate Less(x: Key, y: Key) {
    y != [] && (x == [] || x[0] < y[0] || (x[0] == y[0] && Less(x[1..], y[1..])))
  }

  lemma {:induction false} LessTotal(x: Key, y: Key)
    ensures !Less(x, x)
    ensures x != y ==> Less(x, y) || Less(y, x)
    ensures !(Less(x, y) && Less(y, x))
  {
    if x != [] {
      LessTotal(x[1..], if y == [] then [] else y[1..]);
      assert x == [x[0]] + x[1..];
    }
    if y != [] { assert y == [y[0]] + y[1..]; }
  }

  lemma {:induction false} LessTransitive(x: Key, y: Key, z: Key)
    requires Less(x, y) && Less(y, z)
    ensures Less(x, z)
  {
    if x != [] && x[0] == y[0] && y[0] == z[0] {
      LessTransitive(x[1..], y[1..], z[1..]);
    }
  }

  // Row a is before row b in one column.
  predicate Before(rows: seq<Row>, c: Column, a: int, b: int) {
    var x, y := KeyOf(rows, a, c.col), KeyOf(rows, b, c.col);
    if c.ascending then Less(x, y) else Less(y, x)
  }

  predicate Same(rows: seq<Row>, cols: seq<Column>, a: int, b: int) {
    forall k :: 0 <= k < |cols| ==> KeyOf(rows, a, cols[k].col) == KeyOf(rows, b, cols[k].col)
  }

  // Row a is before row b in the first column in which they differ.
  predicate Ahead(rows: seq<Row>, cols: seq<Column>, a: int, b: int) {
    exists k :: 0 <= k < |cols| && Same(rows, cols[..k], a, b) && Before(rows, cols[k], a, b)
  }

  // Where a row was before the sort.
  function Was(orig: map<int, int>, a: int): int { if a in orig then orig[a] else -1 }

  // The order to sort by: the columns, and the old positions between rows alike in all of them.
  predicate Comes(rows: seq<Row>, cols: seq<Column>, orig: map<int, int>, a: int, b: int) {
    Ahead(rows, cols, a, b) || (Same(rows, cols, a, b) && Was(orig, a) < Was(orig, b))
  }

  // The comparator that _fnSort passes to Array.sort.
  method Compare(rows: seq<Row>, cols: seq<Column>, orig: map<int, int>, a: int, b: int) returns (test: int)
    requires a in orig && b in orig
    ensures test < 0 <==> Comes(rows, cols, orig, a, b)
    ensures test > 0 <==> Comes(rows, cols, orig, b, a)
    ensures -1 <= test <= 1
  {
    hide KeyOf;
    hide Less;
    for k := 0 to |cols|
      invariant Same(rows, cols[..k], a, b) && Same(rows, cols[..k], b, a)
    {
      var sort := cols[k];
      var x, y := KeyOf(rows, a, sort.col), KeyOf(rows, b, sort.col);
      LessTotal(x, y);
      test := if Less(x, y) then -1 else if Less(y, x) then 1 else 0;
      if test != 0 {
        test := if sort.ascending then test else -test;
        FirstDifference(rows, cols, k, a, b);
        return test;
      }
      assert cols[..k + 1] == cols[..k] + [sort];
    }
    assert cols[..|cols|] == cols;
    NotAhead(rows, cols, a, b);
    NotAhead(rows, cols, b, a);
    var x, y := orig[a], orig[b];
    test := if x < y then -1 else if x > y then 1 else 0;
  }

  lemma NotAhead(rows: seq<Row>, cols: seq<Column>, a: int, b: int)
    requires Same(rows, cols, a, b)
    ensures !Ahead(rows, cols, a, b)
  {
    forall k | 0 <= k < |cols| ensures !Before(rows, cols[k], a, b) {
      LessTotal(KeyOf(rows, a, cols[k].col), KeyOf(rows, b, cols[k].col));
    }
  }

  // Rows are ordered by the first column they differ in, and by no other.
  lemma FirstDifference(rows: seq<Row>, cols: seq<Column>, k: nat, a: int, b: int)
    requires k < |cols| && Same(rows, cols[..k], a, b)
    requires KeyOf(rows, a, cols[k].col) != KeyOf(rows, b, cols[k].col)
    ensures Ahead(rows, cols, a, b) <==> Before(rows, cols[k], a, b)
    ensures Ahead(rows, cols, b, a) <==> Before(rows, cols[k], b, a)
    ensures !Same(rows, cols, a, b) && !Same(rows, cols, b, a)
    ensures Ahead(rows, cols, a, b) <==> !Ahead(rows, cols, b, a)
  {
    hide KeyOf;
    hide Less;
    assert Same(rows, cols[..k], b, a);
    LessTotal(KeyOf(rows, a, cols[k].col), KeyOf(rows, b, cols[k].col));
    OnlyThere(rows, cols, k, a, b);
    OnlyThere(rows, cols, k, b, a);
  }

  lemma OnlyThere(rows: seq<Row>, cols: seq<Column>, k: nat, a: int, b: int)
    requires k < |cols| && Same(rows, cols[..k], a, b)
    requires KeyOf(rows, a, cols[k].col) != KeyOf(rows, b, cols[k].col)
    ensures Ahead(rows, cols, a, b) ==> Before(rows, cols[k], a, b)
  {
    hide KeyOf;
    hide Less;
    if Ahead(rows, cols, a, b) {
      var j :| 0 <= j < |cols| && Same(rows, cols[..j], a, b) && Before(rows, cols[j], a, b);
      if k < j {
        SameAt(rows, cols, j, k, a, b);
      }
      if j < k {
        assert cols[..k][j] == cols[j];
        LessTotal(KeyOf(rows, a, cols[j].col), KeyOf(rows, b, cols[j].col));
      }
    }
  }

  // The first column that tells two rows apart.
  lemma {:induction false} Differ(rows: seq<Row>, cols: seq<Column>, a: int, b: int, n: nat) returns (k: nat)
    requires n <= |cols| && !Same(rows, cols[..n], a, b)
    ensures k < n && Same(rows, cols[..k], a, b)
    ensures KeyOf(rows, a, cols[k].col) != KeyOf(rows, b, cols[k].col)
  {
    if Same(rows, cols[..n - 1], a, b) {
      k := n - 1;
      assert cols[..n] == cols[..k] + [cols[k]];
    } else {
      k := Differ(rows, cols, a, b, n - 1);
    }
  }

  // Two rows are alike in all columns, or one is ahead of the other.
  lemma AheadTotal(rows: seq<Row>, cols: seq<Column>, a: int, b: int)
    ensures Same(rows, cols, a, b) ==> !Ahead(rows, cols, a, b) && !Ahead(rows, cols, b, a)
    ensures !Same(rows, cols, a, b) ==> (Ahead(rows, cols, a, b) <==> !Ahead(rows, cols, b, a))
  {
    hide Less;
    hide KeyOf;
    if Same(rows, cols, a, b) {
      NotAhead(rows, cols, a, b);
      NotAhead(rows, cols, b, a);
    } else {
      assert cols[..|cols|] == cols;
      var k := Differ(rows, cols, a, b, |cols|);
      FirstDifference(rows, cols, k, a, b);
    }
  }

  lemma AheadTransitive(rows: seq<Row>, cols: seq<Column>, a: int, b: int, c: int)
    requires Ahead(rows, cols, a, b) || Same(rows, cols, a, b)
    requires Ahead(rows, cols, b, c) || Same(rows, cols, b, c)
    ensures Ahead(rows, cols, a, b) || Ahead(rows, cols, b, c) ==> Ahead(rows, cols, a, c)
    ensures Same(rows, cols, a, b) && Same(rows, cols, b, c) ==> Same(rows, cols, a, c)
  {
    hide Less;
    hide KeyOf;
    if Ahead(rows, cols, a, b) || Ahead(rows, cols, b, c) {
      var i := if Ahead(rows, cols, a, b) then
          var i :| 0 <= i < |cols| && Same(rows, cols[..i], a, b) && Before(rows, cols[i], a, b); i
        else |cols|;
      var j := if Ahead(rows, cols, b, c) then
          var j :| 0 <= j < |cols| && Same(rows, cols[..j], b, c) && Before(rows, cols[j], b, c); j
        else |cols|;
      var k := if i < j then i else j;
      assert Same(rows, cols[..k], a, c) by { Shorter(rows, cols, i, k, a, b); Shorter(rows, cols, j, k, b, c); }
      if i < j { SameAt(rows, cols, j, i, b, c); }
      if j < i { SameAt(rows, cols, i, j, a, b); }
      if i == j {
        var x, y, z := KeyOf(rows, a, cols[k].col), KeyOf(rows, b, cols[k].col), KeyOf(rows, c, cols[k].col);
        if cols[k].ascending { LessTransitive(x, y, z); } else { LessTransitive(z, y, x); }
      }
    }
  }

  lemma Shorter(rows: seq<Row>, cols: seq<Column>, i: nat, k: nat, a: int, b: int)
    requires k <= i <= |cols| && Same(rows, if i == |cols| then cols else cols[..i], a, b)
    ensures Same(rows, cols[..k], a, b)
  {
  }

  lemma SameAt(rows: seq<Row>, cols: seq<Column>, j: nat, i: nat, a: int, b: int)
    requires i < j <= |cols| && Same(rows, if j == |cols| then cols else cols[..j], a, b)
    ensures KeyOf(rows, a, cols[i].col) == KeyOf(rows, b, cols[i].col)
  {
    if j < |cols| { assert cols[..j][i] == cols[i]; }
  }

  // The comparator is a strict total order on rows that had different positions.
  lemma ComesTotal(rows: seq<Row>, cols: seq<Column>, orig: map<int, int>, a: int, b: int)
    ensures !Comes(rows, cols, orig, a, a)
    ensures Was(orig, a) != Was(orig, b) ==> (Comes(rows, cols, orig, a, b) <==> !Comes(rows, cols, orig, b, a))
  {
    AheadTotal(rows, cols, a, b);
    AheadTotal(rows, cols, a, a);
  }

  lemma ComesTransitive(rows: seq<Row>, cols: seq<Column>, orig: map<int, int>, a: int, b: int, c: int)
    requires Comes(rows, cols, orig, a, b) && Comes(rows, cols, orig, b, c)
    ensures Comes(rows, cols, orig, a, c)
  {
    hide Ahead;
    AheadTransitive(rows, cols, a, b, c);
  }

  ghost predicate Positions(m: seq<int>, orig: map<int, int>) {
    forall i :: 0 <= i < |m| ==> m[i] in orig && orig[m[i]] == i
  }

  // The old positions, as recorded before sorting.
  method RecordPositions(m: seq<int>) returns (orig: map<int, int>)
    requires Unique(m)
    ensures Positions(m, orig)
  {
    orig := map[];
    for i := 0 to |m|
      invariant forall k :: 0 <= k < i ==> m[k] in orig && orig[m[k]] == k
    {
      orig := orig[m[i] := i];
    }
  }

  ghost predicate Permutes(r: seq<int>, m: seq<int>) {
    Unique(r) && |r| == |m| && forall x :: x in r <==> x in m
  }

  ghost predicate Ordered(rows: seq<Row>, cols: seq<Column>, orig: map<int, int>, r: seq<int>) {
    forall i, j :: 0 <= i < j < |r| ==> Comes(rows, cols, orig, r[i], r[j])
  }

  // There is one way to order a list, so any algorithm of Array.sort arrives at it.
  lemma {:induction false} OneOrder(rows: seq<Row>, cols: seq<Column>, orig: map<int, int>, p: seq<int>, q: seq<int>)
    requires Permutes(p, q) && Unique(q)
    requires Ordered(rows, cols, orig, p) && Ordered(rows, cols, orig, q)
    ensures p == q
  {
    hide Comes;
    if p != [] {
      var n := |p| - 1;
      var x := p[n];
      SameLast(rows, cols, orig, p, q);
      WithoutLast(p, q);
      OneOrder(rows, cols, orig, p[..n], q[..n]);
      assert p == p[..n] + [x] && q == q[..n] + [x];
    }
  }

  lemma SameLast(rows: seq<Row>, cols: seq<Column>, orig: map<int, int>, p: seq<int>, q: seq<int>)
    requires Permutes(p, q) && Unique(q) && p != []
    requires Ordered(rows, cols, orig, p) && Ordered(rows, cols, orig, q)
    ensures p[|p| - 1] == q[|p| - 1]
  {
    hide Comes;
    var n := |p| - 1;
    var x, y := p[n], q[n];
    assert x in p && y in q;
    if x != y {
      var i :| 0 <= i < |q| && q[i] == x;
      var j :| 0 <= j < |p| && p[j] == y;
      ComesTransitive(rows, cols, orig, x, y, x);
      ComesTotal(rows, cols, orig, x, x);
    }
  }

  lemma WithoutLast(p: seq<int>, q: seq<int>)
    requires Permutes(p, q) && Unique(q) && p != [] && p[|p| - 1] == q[|p| - 1]
    ensures Permutes(p[..|p| - 1], q[..|p| - 1])
  {
    var n := |p| - 1;
    var x := p[n];
    assert p == p[..n] + [x] && q == q[..n] + [x];
    assert x !in p[..n] && x !in q[..n];
    forall z ensures z in p[..n] <==> z in q[..n] {
      assert z in p <==> z in p[..n] || z == x;
      assert z in q <==> z in q[..n] || z == x;
    }
  }

  // Insertion that moves a row in front of the rows it is ahead of, and of no others.
  function Insert(rows: seq<Row>, cols: seq<Column>, r: seq<int>, x: int): seq<int> {
    if r == [] || !Ahead(rows, cols, x, r[|r| - 1]) then r + [x]
    else Insert(rows, cols, r[..|r| - 1], x) + [r[|r| - 1]]
  }

  // The stable sort of a list by columns, which knows nothing of positions.
  function StableSort(rows: seq<Row>, cols: seq<Column>, m: seq<int>): seq<int> {
    if m == [] then []
    else Insert(rows, cols, StableSort(rows, cols, m[..|m| - 1]), m[|m| - 1])
  }

  // Sorting by no columns leaves the list alone.
  lemma {:induction false} NoColumns(rows: seq<Row>, m: seq<int>)
    ensures StableSort(rows, [], m) == m
  {
    if m != [] {
      NoColumns(rows, m[..|m| - 1]);
    }
  }

  lemma {:induction false} InsertMembers(rows: seq<Row>, cols: seq<Column>, r: seq<int>, x: int)
    requires Unique(r) && x !in r
    ensures var s := Insert(rows, cols, r, x);
      Unique(s) && |s| == |r| + 1 && forall y :: y in s <==> y == x || y in r
  {
    hide Ahead;
    if r != [] && Ahead(rows, cols, x, r[|r| - 1]) {
      var n := |r| - 1;
      var last := r[n];
      assert r == r[..n] + [last];
      InsertMembers(rows, cols, r[..n], x);
      assert last !in r[..n];
    } else {
      var s := Insert(rows, cols, r, x);
      assert s == r + [x];
      forall i | 0 <= i < |r| ensures s[i] in r && s[i] != x {}
    }
  }

  lemma {:induction false} InsertOrdered(rows: seq<Row>, cols: seq<Column>, orig: map<int, int>, r: seq<int>, x: int)
    requires Unique(r) && x !in r && Ordered(rows, cols, orig, r)
    requires forall y :: y in r ==> Was(orig, y) < Was(orig, x)
    ensures Ordered(rows, cols, orig, Insert(rows, cols, r, x))
  {
    hide Ahead;
    hide Comes;
    if r != [] {
      var n := |r| - 1;
      var last := r[n];
      assert r == r[..n] + [last];
      assert last in r;
      if Ahead(rows, cols, x, last) {
        InsertOrdered(rows, cols, orig, r[..n], x);
        InsertMembers(rows, cols, r[..n], x);
        var s := Insert(rows, cols, r[..n], x);
        AheadComes(rows, cols, orig, x, last);
        forall i | 0 <= i < |s| ensures Comes(rows, cols, orig, s[i], last) {
          var y := s[i];
          assert y in s;
        }
      } else {
        LastComes(rows, cols, orig, last, x);
        forall i | 0 <= i < n ensures Comes(rows, cols, orig, r[i], x) {
          ComesTransitive(rows, cols, orig, r[i], last, x);
        }
      }
    }
  }

  lemma AheadComes(rows: seq<Row>, cols: seq<Column>, orig: map<int, int>, a: int, b: int)
    requires Ahead(rows, cols, a, b)
    ensures Comes(rows, cols, orig, a, b)
  {
  }

  lemma LastComes(rows: seq<Row>, cols: seq<Column>, orig: map<int, int>, a: int, b: int)
    requires !Ahead(rows, cols, b, a) && Was(orig, a) < Was(orig, b)
    ensures Comes(rows, cols, orig, a, b)
  {
    AheadTotal(rows, cols, a, b);
  }

  // The stable sort is a permutation and the one the comparator asks for.
  lemma {:induction false} StableSortIs(rows: seq<Row>, cols: seq<Column>, orig: map<int, int>, m: seq<int>)
    requires Positions(m, orig)
    ensures Permutes(StableSort(rows, cols, m), m)
    ensures Ordered(rows, cols, orig, StableSort(rows, cols, m))
  {
    hide Insert;
    if m != [] {
      var n := |m| - 1;
      var x := m[n];
      assert m == m[..n] + [x];
      StableSortIs(rows, cols, orig, m[..n]);
      var r := StableSort(rows, cols, m[..n]);
      assert x !in m[..n];
      InsertMembers(rows, cols, r, x);
      InsertOrdered(rows, cols, orig, r, x);
    }
  }

  // The master list sorted with the comparator, here by insertion.
  method ArraySort(rows: seq<Row>, cols: seq<Column>, orig: map<int, int>, m: seq<int>) returns (r: seq<int>)
    requires Positions(m, orig)
    ensures r == StableSort(rows, cols, m)
  {
    hide *;
    r := [];
    StableSortNone(rows, cols);
    for n := 0 to |m|
      invariant r == StableSort(rows, cols, m[..n])
    {
      r := InsertSorted(rows, cols, orig, m, n, r);
      assert m[..n + 1][..n] == m[..n];
    }
    assert m[..|m|] == m;
  }

  lemma StableSortNone(rows: seq<Row>, cols: seq<Column>)
    ensures StableSort(rows, cols, []) == []
  {
  }

  method InsertSorted(rows: seq<Row>, cols: seq<Column>, orig: map<int, int>, m: seq<int>, n: nat, r: seq<int>)
      returns (s: seq<int>)
    requires Positions(m, orig) && n < |m| && r == StableSort(rows, cols, m[..n])
    ensures s == StableSort(rows, cols, m[..n + 1])
  {
    hide Comes;
    hide Ahead;
    hide Insert;
    var x := m[n];
    StableSortIs(rows, cols, orig, m[..n]);
    assert forall y :: y in r ==> y in m[..n];
    var k := |r|;
    assert r[..k] == r && r[k..] == [];
    while k > 0
      invariant 0 <= k <= |r|
      invariant Insert(rows, cols, r, x) == Insert(rows, cols, r[..k], x) + r[k..]
    {
      var y := r[k - 1];
      assert y in r;
      var test := Compare(rows, cols, orig, y, x);
      ComesIsNotAhead(rows, cols, orig, y, x);
      InsertStep(rows, cols, r[..k], x);
      assert r[..k][..k - 1] == r[..k - 1];
      if test < 0 {
        break;
      }
      assert r[k - 1..] == [y] + r[k..];
      k := k - 1;
    }
    s := r[..k] + [x] + r[k..];
    InsertStep(rows, cols, r[..k], x);
    assert m[..n + 1][..n] == m[..n];
  }

  lemma ComesIsNotAhead(rows: seq<Row>, cols: seq<Column>, orig: map<int, int>, y: int, x: int)
    requires Was(orig, y) < Was(orig, x)
    ensures Comes(rows, cols, orig, y, x) <==> !Ahead(rows, cols, x, y)
  {
    AheadTotal(rows, cols, y, x);
  }

  lemma InsertStep(rows: seq<Row>, cols: seq<Column>, r: seq<int>, x: int)
    ensures r == [] || !Ahead(rows, cols, x, r[|r| - 1]) ==> Insert(rows, cols, r, x) == r + [x]
    ensures r != [] && Ahead(rows, cols, x, r[|r| - 1]) ==>
      Insert(rows, cols, r, x) == Insert(rows, cols, r[..|r| - 1], x) + [r[|r| - 1]]
  {
  }

  // Whatever the algorithm, sorting with the comparator is the stable sort by columns.
  lemma Canonical(rows: seq<Row>, cols: seq<Column>, orig: map<int, int>, m: seq<int>, r: seq<int>)
    requires Positions(m, orig) && Permutes(r, m)
    ensures Ordered(rows, cols, orig, r) <==> r == StableSort(rows, cols, m)
  {
    hide *;
    hide Comes;
    StableSortIs(rows, cols, orig, m);
    var s := StableSort(rows, cols, m);
    PermutesBack(r, s, m);
    if Ordered(rows, cols, orig, r) {
      OneOrder(rows, cols, orig, r, s);
    }
  }

  lemma PermutesBack(r: seq<int>, s: seq<int>, m: seq<int>)
    requires Permutes(r, m) && Permutes(s, m)
    ensures Permutes(r, s) && Unique(s)
  {
  }

  lemma SameJoin(rows: seq<Row>, first: seq<Column>, next: seq<Column>, a: int, b: int)
    ensures Same(rows, first + next, a, b) <==> Same(rows, first, a, b) && Same(rows, next, a, b)
  {
    hide KeyOf;
    var cols := first + next;
    if Same(rows, cols, a, b) {
      forall k | 0 <= k < |first| ensures KeyOf(rows, a, first[k].col) == KeyOf(rows, b, first[k].col) {
        assert cols[k] == first[k];
      }
      forall k | 0 <= k < |next| ensures KeyOf(rows, a, next[k].col) == KeyOf(rows, b, next[k].col) {
        var i := |first| + k;
        assert cols[i] == next[k];
      }
    }
  }

  lemma AheadJoin(rows: seq<Row>, first: seq<Column>, next: seq<Column>, a: int, b: int)
    requires Ahead(rows, first, a, b) || (Same(rows, first, a, b) && Ahead(rows, next, a, b))
    ensures Ahead(rows, first + next, a, b)
  {
    hide Before;
    hide Same;
    var cols := first + next;
    if Ahead(rows, first, a, b) {
      var k :| 0 <= k < |first| && Same(rows, first[..k], a, b) && Before(rows, first[k], a, b);
      assert cols[..k] == first[..k] && cols[k] == first[k];
    } else {
      var k :| 0 <= k < |next| && Same(rows, next[..k], a, b) && Before(rows, next[k], a, b);
      var i := |first| + k;
      assert cols[..i] == first + next[..k] && cols[i] == next[k];
      SameJoin(rows, first, next[..k], a, b);
    }
  }

  ghost function PositionMap(m: seq<int>): (orig: map<int, int>)
    requires Unique(m)
    ensures Positions(m, orig)
  {
    if m == [] then map[] else PositionMap(m[..|m| - 1])[m[|m| - 1] := |m| - 1]
  }

  // Sorting by one list of columns and then by another is sorting by the other first.
  lemma SortTwice(rows: seq<Row>, first: seq<Column>, next: seq<Column>, orig: map<int, int>, m: seq<int>)
    requires Positions(m, orig)
    ensures StableSort(rows, first, StableSort(rows, next, m)) == StableSort(rows, first + next, m)
  {
    hide StableSort;
    hide Comes;
    StableSortIs(rows, next, orig, m);
    var s := StableSort(rows, next, m);
    var positions := PositionMap(s);
    StableSortIs(rows, first, positions, s);
    var r := StableSort(rows, first, s);
    forall i, j | 0 <= i < j < |r| ensures Comes(rows, first + next, orig, r[i], r[j]) {
      var a, b := r[i], r[j];
      assert a in r && b in r;
      ComesJoin(rows, first, next, orig, s, positions, a, b);
    }
    assert Permutes(r, m);
    Canonical(rows, first + next, orig, m, r);
  }

  lemma ComesJoin(rows: seq<Row>, first: seq<Column>, next: seq<Column>, orig: map<int, int>,
                  s: seq<int>, positions: map<int, int>, a: int, b: int)
    requires Ordered(rows, next, orig, s) && Positions(s, positions) && a in s && b in s
    requires Comes(rows, first, positions, a, b)
    ensures Comes(rows, first + next, orig, a, b)
  {
    hide Ahead;
    hide Same;
    SameJoin(rows, first, next, a, b);
    if Ahead(rows, first, a, b) {
      AheadJoin(rows, first, next, a, b);
    } else {
      var i :| 0 <= i < |s| && s[i] == a;
      var j :| 0 <= j < |s| && s[j] == b;
      assert Comes(rows, next, orig, s[i], s[j]);
      if Ahead(rows, next, a, b) {
        AheadJoin(rows, first, next, a, b);
      }
    }
  }

  // Sorting what is sorted changes nothing.
  lemma SortIdempotent(rows: seq<Row>, cols: seq<Column>, orig: map<int, int>, m: seq<int>)
    requires Positions(m, orig)
    ensures var s := StableSort(rows, cols, m); StableSort(rows, cols, s) == s
  {
    hide StableSort;
    hide Ahead;
    hide Same;
    StableSortIs(rows, cols, orig, m);
    var s := StableSort(rows, cols, m);
    Canonical(rows, cols, PositionMap(s), s, s);
  }

  // ----- which way round

  // Two keys are ordered by the first place in which they differ, or the shorter one comes first.
  lemma {:induction false} LessAt(x: Key, y: Key)
    ensures Less(x, y) <==> exists k :: 0 <= k <= |x| && DiffersAt(x, y, k)
  {
    if x != [] && y != [] && x[0] == y[0] {
      LessAt(x[1..], y[1..]);
      if k :| 0 <= k <= |x| && DiffersAt(x, y, k) {
        assert DiffersAt(x[1..], y[1..], k - 1);
      }
      if j :| 0 <= j <= |x[1..]| && DiffersAt(x[1..], y[1..], j) {
        forall i | 0 <= i < j + 1 ensures x[i] == y[i] { if i > 0 { assert x[1..][i - 1] == y[1..][i - 1]; } }
        assert DiffersAt(x, y, j + 1);
      }
    } else if Less(x, y) {
      assert DiffersAt(x, y, 0);
    }
  }

  // The keys agree up to place k, where the first one ends or has the lesser entry.
  predicate DiffersAt(x: Key, y: Key, k: int) {
    0 <= k <= |x| && k < |y| && (forall i :: 0 <= i < k ==> x[i] == y[i]) && (k == |x| || x[k] < y[k])
  }

  lemma LessNumbers(a: int, b: int)
    ensures Less([a], [b]) <==> a < b
  {
    assert [a][1..] == [] && [b][1..] == [];
  }

  // A row with a number as its key in a column.
  predicate HasNumber(rows: seq<Row>, x: int, col: nat) {
    0 <= x < |rows| && col < |rows[x].keys| && |rows[x].keys[col]| == 1
  }

  // Sorted by one column of numbers, they increase down the list, or decrease, as the column asks.
  lemma NumbersSorted(rows: seq<Row>, c: Column, orig: map<int, int>, m: seq<int>)
    requires Positions(m, orig) && forall x :: x in m ==> HasNumber(rows, x, c.col)
    ensures var r := StableSort(rows, [c], m);
      (forall i :: 0 <= i < |r| ==> HasNumber(rows, r[i], c.col)) &&
      forall i, j :: 0 <= i < j < |r| ==>
        if c.ascending then rows[r[i]].keys[c.col][0] <= rows[r[j]].keys[c.col][0]
        else rows[r[j]].keys[c.col][0] <= rows[r[i]].keys[c.col][0]
  {
    hide StableSort;
    hide Comes;
    StableSortIs(rows, [c], orig, m);
    var r := StableSort(rows, [c], m);
    forall i | 0 <= i < |r| ensures HasNumber(rows, r[i], c.col) {
      var x := r[i];
      assert x in r;
    }
    forall i, j | 0 <= i < j < |r|
      ensures if c.ascending then rows[r[i]].keys[c.col][0] <= rows[r[j]].keys[c.col][0]
        else rows[r[j]].keys[c.col][0] <= rows[r[i]].keys[c.col][0]
    {
      assert HasNumber(rows, r[i], c.col) && HasNumber(rows, r[j], c.col);
      NumberOrder(rows, c, orig, r[i], r[j]);
    }
  }

  lemma NumberOrder(rows: seq<Row>, c: Column, orig: map<int, int>, a: int, b: int)
    requires Comes(rows, [c], orig, a, b) && |KeyOf(rows, a, c.col)| == 1 == |KeyOf(rows, b, c.col)|
    ensures if c.ascending then KeyOf(rows, a, c.col)[0] <= KeyOf(rows, b, c.col)[0]
      else KeyOf(rows, b, c.col)[0] <= KeyOf(rows, a, c.col)[0]
  {
    hide KeyOf;
    hide Less;
    var x, y := KeyOf(rows, a, c.col), KeyOf(rows, b, c.col);
    assert x == [x[0]] && y == [y[0]];
    LessNumbers(x[0], y[0]);
    LessNumbers(y[0], x[0]);
    assert [c][0] == c;
  }
}
