/** The index lists of a table: lists of positions in its row store. Deleting a row from the store
    drops it from the lists and renumbers what comes after it. */
module IndexLists {

  ghost predicate Unique<T>(s: seq<T>) {
    forall i, j :: 0 <= i < j < |s| ==> s[i] != s[j]
  }

  // All positions of a store of n rows.
  function Range(n: nat): (r: seq<nat>)
    ensures |r| == n && forall i :: 0 <= i < n ==> r[i] == i
  {
    seq(n, i => i)
  }

  function Renumber(x: int, target: int): int { if x > target then x - 1 else x }

  function Decremented(a: seq<int>, target: int): (r: seq<int>)
    ensures |r| == |a|
  {
    seq(|a|, i requires 0 <= i < |a| => Renumber(a[i], target))
  }

  // The list without a target, the greater entries renumbered.
  function Deleted(a: seq<int>, target: int): seq<int> {
    if a == [] then []
    else
      var n := |a| - 1;
      Deleted(a[..n], target) + if a[n] == target then [] else [Renumber(a[n], target)]
  }

  // Where the target is last found.
  function LastIndex(a: seq<int>, target: int): (i: int)
    ensures -1 <= i < |a| && (i >= 0 ==> a[i] == target)
    ensures forall k :: i < k < |a| ==> a[k] != target
  {
    if a == [] then -1
    else if a[|a| - 1] == target then |a| - 1
    else LastIndex(a[..|a| - 1], target)
  }

  // A list without one of its entries, if there is one at i.
  function Cut(a: seq<int>, i: int): seq<int>
    requires -1 <= i < |a|
  {
    if i == -1 then a else a[..i] + a[i + 1..]
  }

  // The loop of _fnDeleteIndex. It splices out the last entry that is the target, which is the only
  // one in a list without duplicates; splice is false for the list being iterated.
  method DeleteIndex(a: seq<int>, target: int, splice: bool) returns (r: seq<int>)
    ensures r == if splice then Cut(Decremented(a, target), LastIndex(a, target)) else Decremented(a, target)
    ensures splice && Unique(a) ==> r == Deleted(a, target)
  {
    hide Deleted;
    hide LastIndex;
    hide Unique;
    var targetIndex := -1;
    r := a;
    for i := 0 to |a|
      invariant |r| == |a| && -1 <= targetIndex < i
      invariant forall k :: 0 <= k < |a| ==> r[k] == if k < i then Renumber(a[k], target) else a[k]
      invariant targetIndex >= 0 ==> a[targetIndex] == target
      invariant forall k :: targetIndex < k < i ==> a[k] != target
    {
      if r[i] == target {
        targetIndex := i;
      } else if r[i] > target {
        r := r[i := r[i] - 1];
      }
    }
    assert r == Decremented(a, target) && targetIndex == LastIndex(a, target);
    if targetIndex != -1 && splice {
      r := r[..targetIndex] + r[targetIndex + 1..];
    }
    if splice && Unique(a) { DeletedIsCut(a, target); }
  }

  lemma DeletedIsCut(a: seq<int>, target: int)
    requires Unique(a)
    ensures Cut(Decremented(a, target), LastIndex(a, target)) == Deleted(a, target)
  {
    hide Deleted;
    hide LastIndex;
    DeletedAround(a, target, LastIndex(a, target), |a|);
    assert a[..|a|] == a && Decremented(a, target)[..|a|] == Decremented(a, target);
  }

  // Without its target a list is only renumbered.
  lemma {:induction false} DeletedAround(a: seq<int>, target: int, at: int, n: nat)
    requires Unique(a) && n <= |a| && -1 <= at < |a|
    requires if at == -1 then target !in a else a[at] == target
    ensures var d := Decremented(a, target);
      Deleted(a[..n], target) == if at == -1 || n <= at then d[..n] else d[..at] + d[at + 1..n]
  {
    if n > 0 {
      DeletedAround(a, target, at, n - 1);
      assert a[..n][..n - 1] == a[..n - 1];
      assert a[n - 1] == target <==> n - 1 == at;
    }
  }

  // The rows of a store but one.
  function Without<T>(rows: seq<T>, r: nat): (s: seq<T>)
    requires r < |rows|
    ensures |s| == |rows| - 1
    ensures forall x :: 0 <= x < |rows| && x != r ==> s[Renumber(x, r)] == rows[x]
  {
    rows[..r] + rows[r + 1..]
  }

  lemma {:induction false} DeletedMembers(a: seq<int>, target: int)
    ensures forall x :: x != target ==> (x in a <==> Renumber(x, target) in Deleted(a, target))
    ensures forall y :: y in Deleted(a, target) ==> exists x :: x in a && x != target && y == Renumber(x, target)
  {
    if a != [] {
      DeletedMembers(a[..|a| - 1], target);
      assert a == a[..|a| - 1] + [a[|a| - 1]];
    }
  }

  lemma {:induction false} DeletedUnique(a: seq<int>, target: int)
    requires Unique(a)
    ensures Unique(Deleted(a, target)) && |a| - 1 <= |Deleted(a, target)| <= |a|
    ensures |Deleted(a, target)| == |a| <==> target !in a
  {
    if a != [] {
      DeletedUnique(a[..|a| - 1], target);
      DeletedMembers(a[..|a| - 1], target);
    }
  }

  // The entries of a list that belong to a set, in order.
  function Filter(xs: seq<int>, keep: set<int>): seq<int> {
    if xs == [] then []
    else Filter(xs[..|xs| - 1], keep) + if xs[|xs| - 1] in keep then [xs[|xs| - 1]] else []
  }

  lemma {:induction false} FilterSame(xs: seq<int>, f: set<int>, g: set<int>)
    requires forall x :: x in xs ==> (x in f <==> x in g)
    ensures Filter(xs, f) == Filter(xs, g)
  {
    if xs != [] {
      var n := |xs| - 1;
      var last := xs[n];
      assert last in xs;
      FilterSame(xs[..n], f, g);
    }
  }

  lemma {:induction false} FilterTwice(xs: seq<int>, f: set<int>, g: set<int>)
    ensures Filter(Filter(xs, f), g) == Filter(xs, f * g)
  {
    if xs != [] {
      var n := |xs| - 1;
      FilterTwice(xs[..n], f, g);
      var fs := Filter(xs[..n], f);
      if xs[n] in f { assert (fs + [xs[n]])[..|fs|] == fs; } else { assert fs + [] == fs; }
    }
  }

  lemma {:induction false} FilterMembers(xs: seq<int>, f: set<int>)
    ensures forall x :: x in Filter(xs, f) <==> x in xs && x in f
    ensures Unique(xs) ==> Unique(Filter(xs, f))
    ensures |Filter(xs, f)| <= |xs|
  {
    if xs != [] {
      FilterMembers(xs[..|xs| - 1], f);
      assert xs == xs[..|xs| - 1] + [xs[|xs| - 1]];
    }
  }

  lemma {:induction false} FilterAll(xs: seq<int>, f: set<int>)
    requires forall x :: x in xs ==> x in f
    ensures Filter(xs, f) == xs
  {
    if xs != [] {
      var n := |xs| - 1;
      var last := xs[n];
      assert last in xs;
      FilterAll(xs[..n], f);
    }
  }

  lemma {:induction false} FilterJoin(xs: seq<int>, ys: seq<int>, f: set<int>)
    ensures Filter(xs + ys, f) == Filter(xs, f) + Filter(ys, f)
  {
    if ys == [] {
      assert xs + ys == xs;
    } else {
      var n := |ys| - 1;
      FilterJoin(xs, ys[..n], f);
      assert (xs + ys)[..|xs + ys| - 1] == xs + ys[..n];
    }
  }

  // Filtering and deleting commute when the filter goes by the rows, which keep their properties.
  lemma {:induction false} FilterDeleted(xs: seq<int>, target: int, f: set<int>, g: set<int>)
    requires forall x :: x in xs && x != target ==> (x in f <==> Renumber(x, target) in g)
    ensures Filter(Deleted(xs, target), g) == Deleted(Filter(xs, f), target)
  {
    if xs != [] {
      var n := |xs| - 1;
      assert xs[n] in xs;
      forall x | x in xs[..n] && x != target ensures x in f <==> Renumber(x, target) in g { assert x in xs; }
      FilterDeleted(xs[..n], target, f, g);
      var d, fs := Deleted(xs[..n], target), Filter(xs[..n], f);
      if xs[n] == target { assert d + [] == d; } else { assert (d + [Renumber(xs[n], target)])[..|d|] == d; }
      if xs[n] in f { assert (fs + [xs[n]])[..|fs|] == fs; } else { assert fs + [] == fs; }
    }
  }
}
