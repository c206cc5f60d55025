/** Removing a selection of rows one by one. Each removal renumbers the entries that are still to come,
    as it does the index lists; an entry that is the row just removed stays, and then selects the row
    that has moved up. */
module Selections {
  import opened IndexLists

  // The entries select rows, or the place behind the last row.
  predicate Entries(sel: seq<int>, n: int) {
    forall i :: 0 <= i < |sel| ==> 0 <= sel[i] <= n
  }

  // What is left of a selection when its first row has been removed.
  function Rest(sel: seq<int>): (r: seq<int>)
    requires sel != []
    ensures |r| == |sel| - 1
  {
    Decremented(sel[1..], sel[0])
  }

  // An index list after the removals.
  function Deletions(a: seq<int>, sel: seq<int>): seq<int>
    decreases |sel|
  {
    if sel == [] then a else Deletions(Deleted(a, sel[0]), Rest(sel))
  }

  // The rows after the removals; splicing behind the last row removes nothing.
  function KeptRows<T>(rows: seq<T>, sel: seq<int>): seq<T>
    decreases |sel|
  {
    if sel == [] then rows
    else KeptRows(if 0 <= sel[0] < |rows| then Without(rows, sel[0]) else rows, Rest(sel))
  }

  // ----- what the removals are meant to leave

  // How many rows below x are selected.
  function CountBelow(sel: seq<int>, x: int): (n: nat) {
    if x <= 0 then 0 else CountBelow(sel, x - 1) + if x - 1 in sel then 1 else 0
  }

  // The list without the rows selected, every other entry moved down past what is gone.
  function Dropped(a: seq<int>, sel: seq<int>): seq<int> {
    if a == [] then []
    else
      var n := |a| - 1;
      Dropped(a[..n], sel) + if a[n] in sel then [] else [a[n] - CountBelow(sel, a[n])]
  }

  // The first n rows of a store without those selected.
  function Survivors<T>(rows: seq<T>, sel: seq<int>, n: nat): seq<T>
    requires n <= |rows|
  {
    if n == 0 then []
    else Survivors(rows, sel, n - 1) + if n - 1 in sel then [] else [rows[n - 1]]
  }

  lemma {:induction false} SurvivorCount<T>(rows: seq<T>, sel: seq<int>, n: nat)
    requires n <= |rows|
    ensures |Survivors(rows, sel, n)| == n - CountBelow(sel, n)
  {
    if n > 0 { SurvivorCount(rows, sel, n - 1); }
  }

  // A surviving position moved down points at the same row as before.
  lemma {:induction false} SameRow<T>(rows: seq<T>, sel: seq<int>, x: nat, n: nat)
    requires x < n <= |rows| && x !in sel
    ensures 0 <= x - CountBelow(sel, x) < |Survivors(rows, sel, n)|
    ensures Survivors(rows, sel, n)[x - CountBelow(sel, x)] == rows[x]
  {
    SurvivorCount(rows, sel, n - 1);
    if x < n - 1 {
      SameRow(rows, sel, x, n - 1);
    }
  }

  // ----- repeated entries

  // Some row below x is selected twice.
  predicate RepeatsBelow(sel: seq<int>, x: int) {
    exists i, j :: 0 <= i < j < |sel| && sel[i] == sel[j] && sel[i] < x
  }

  // Every listed row behind a row selected twice is selected, too.
  predicate Harmless(sel: seq<int>, a: seq<int>) {
    forall k :: 0 <= k < |a| && RepeatsBelow(sel, a[k]) ==> a[k] in sel
  }

  // How many entries are below x, repeated ones counted again.
  function EntriesBelow(sel: seq<int>, x: int): (n: nat) {
    if sel == [] then 0 else (if sel[0] < x then 1 else 0) + EntriesBelow(sel[1..], x)
  }

  lemma {:induction false} CountMore(sel: seq<int>, x: int)
    requires sel != [] && 0 <= sel[0]
    ensures CountBelow(sel, x) == CountBelow(sel[1..], x) + if sel[0] < x && sel[0] !in sel[1..] then 1 else 0
    decreases if x < 0 then 0 else x
  {
    if x > 0 {
      CountMore(sel, x - 1);
      assert sel == [sel[0]] + sel[1..];
    }
  }

  // Without repetitions below x, and only then, the entries below x are as many as the rows selected.
  lemma {:induction false} RepetitionsCount(sel: seq<int>, x: int)
    requires forall i :: 0 <= i < |sel| ==> 0 <= sel[i]
    ensures CountBelow(sel, x) <= EntriesBelow(sel, x)
    ensures CountBelow(sel, x) == EntriesBelow(sel, x) <==> !RepeatsBelow(sel, x)
  {
    if sel == [] {
      NoneSelected(x);
    } else {
      RepetitionsCount(sel[1..], x);
      CountMore(sel, x);
      RepeatsFirst(sel, x);
    }
  }

  lemma {:induction false} NoneSelected(x: int)
    ensures CountBelow([], x) == 0
    decreases if x < 0 then 0 else x
  {
    if x > 0 { NoneSelected(x - 1); }
  }

  lemma RepeatsFirst(sel: seq<int>, x: int)
    requires sel != []
    ensures RepeatsBelow(sel, x) <==> (sel[0] < x && sel[0] in sel[1..]) || RepeatsBelow(sel[1..], x)
  {
    var rest := sel[1..];
    if RepeatsBelow(sel, x) {
      var i, j :| 0 <= i < j < |sel| && sel[i] == sel[j] && sel[i] < x;
      assert rest[j - 1] == sel[j];
      if i > 0 { assert rest[i - 1] == sel[i]; }
    }
    if sel[0] < x && sel[0] in rest {
      var j :| 0 <= j < |rest| && rest[j] == sel[0];
      assert sel[0] == sel[j + 1];
    }
    if RepeatsBelow(rest, x) {
      var i, j :| 0 <= i < j < |rest| && rest[i] == rest[j] && rest[i] < x;
      assert sel[i + 1] == sel[j + 1];
    }
  }

  // ----- one removal

  // The renumbered entries: one that was the row removed now selects the row behind it.
  lemma RestMembers(sel: seq<int>, x: int)
    requires sel != [] && x != sel[0]
    ensures Renumber(x, sel[0]) in Rest(sel) <==> x in sel || (x == sel[0] + 1 && sel[0] in sel[1..])
  {
    var t, rest, later := sel[0], sel[1..], Rest(sel);
    assert sel == [t] + rest;
    if Renumber(x, t) in later {
      var i :| 0 <= i < |later| && later[i] == Renumber(x, t);
      assert later[i] == Renumber(rest[i], t) && rest[i] in rest;
    }
    if x in rest {
      var i :| 0 <= i < |rest| && rest[i] == x;
      assert later[i] == Renumber(x, t);
    }
    if t in rest {
      var i :| 0 <= i < |rest| && rest[i] == t;
      assert later[i] == t;
    }
  }

  // Repetitions in what is left come from repetitions.
  lemma RestRepeats(sel: seq<int>, x: int)
    requires sel != [] && x != sel[0] && RepeatsBelow(Rest(sel), Renumber(x, sel[0]))
    ensures RepeatsBelow(sel, x)
  {
    var t, rest, later := sel[0], sel[1..], Rest(sel);
    var i, j :| 0 <= i < j < |later| && later[i] == later[j] && later[i] < Renumber(x, t);
    assert later[i] == Renumber(rest[i], t) && later[j] == Renumber(rest[j], t);
    RepeatsFirst(sel, x);
    if rest[i] != rest[j] {
      assert rest[i] == t || rest[j] == t;
    }
  }

  lemma {:induction false} RestCount(s: seq<int>, t: int, x: int)
    requires x != t && x !in s && Renumber(x, t) !in Decremented(s, t)
    ensures EntriesBelow(Decremented(s, t), Renumber(x, t)) == EntriesBelow(s, x)
  {
    if s != [] {
      var first, rest, d := s[0], s[1..], Decremented(s, t);
      assert s == [first] + rest;
      assert d == [Renumber(first, t)] + Decremented(rest, t);
      RestCount(rest, t, x);
    }
  }

  // What becomes of one listed row: it goes if it is selected; if not, it moves down by the number of
  // entries below it, or is taken along, which takes a repetition below it.
  lemma {:induction false} Fate(x: int, sel: seq<int>)
    ensures x in sel ==> Deletions([x], sel) == []
    ensures x !in sel ==> Deletions([x], sel) == [] || Deletions([x], sel) == [x - EntriesBelow(sel, x)]
    ensures x !in sel && Deletions([x], sel) == [] ==> RepeatsBelow(sel, x)
    decreases |sel|
  {
    if sel != [] {
      var t := sel[0];
      DeletedOne(x, t);
      if x == t {
        NothingLeft(Rest(sel));
      } else {
        var x' := Renumber(x, t);
        Fate(x', Rest(sel));
        RestMembers(sel, x);
        RepeatsFirst(sel, x);
        if RepeatsBelow(Rest(sel), x') { RestRepeats(sel, x); }
        if x !in sel && x' !in Rest(sel) {
          assert sel == [t] + sel[1..];
          RestCount(sel[1..], t, x);
        }
      }
    }
  }

  lemma DeletedOne(x: int, t: int)
    ensures Deleted([x], t) == if x == t then [] else [Renumber(x, t)]
  {
    assert [x][..0] == [];
  }

  lemma {:induction false} NothingLeft(sel: seq<int>)
    ensures Deletions([], sel) == []
    decreases |sel|
  {
    if sel != [] { NothingLeft(Rest(sel)); }
  }

  // ----- lists

  lemma {:induction false} DeletedJoin(a: seq<int>, b: seq<int>, t: int)
    ensures Deleted(a + b, t) == Deleted(a, t) + Deleted(b, t)
  {
    if b == [] {
      assert a + b == a;
    } else {
      var n := |b| - 1;
      DeletedJoin(a, b[..n], t);
      assert (a + b)[..|a + b| - 1] == a + b[..n];
    }
  }

  lemma {:induction false} DeletionsJoin(a: seq<int>, b: seq<int>, sel: seq<int>)
    ensures Deletions(a + b, sel) == Deletions(a, sel) + Deletions(b, sel)
    decreases |sel|
  {
    if sel != [] {
      DeletedJoin(a, b, sel[0]);
      DeletionsJoin(Deleted(a, sel[0]), Deleted(b, sel[0]), Rest(sel));
    }
  }

  // A list ends up without the rows selected, the others moved down past them, exactly when every
  // listed row behind a repetition is selected; otherwise it loses rows, or its entries are too low.
  lemma {:induction false} ListExact(a: seq<int>, sel: seq<int>)
    requires forall i :: 0 <= i < |sel| ==> 0 <= sel[i]
    ensures |Deletions(a, sel)| <= |Dropped(a, sel)|
    ensures Deletions(a, sel) == Dropped(a, sel) <==> Harmless(sel, a)
  {
    if a == [] {
      NothingLeft(sel);
    } else {
      var n := |a| - 1;
      var b, x := a[..n], a[n];
      ListExact(b, sel);
      assert a == b + [x];
      DeletionsJoin(b, [x], sel);
      Fate(x, sel);
      RepetitionsCount(sel, x);
      HarmlessJoin(sel, b, x);
      JoinEqual(Deletions(b, sel), Deletions([x], sel), Dropped(b, sel), if x in sel then [] else [x - CountBelow(sel, x)]);
    }
  }

  lemma HarmlessJoin(sel: seq<int>, b: seq<int>, x: int)
    ensures Harmless(sel, b + [x]) <==> Harmless(sel, b) && (RepeatsBelow(sel, x) ==> x in sel)
  {
    var a := b + [x];
    if Harmless(sel, a) {
      assert a[|b|] == x;
      forall k | 0 <= k < |b| && RepeatsBelow(sel, b[k]) ensures b[k] in sel { assert a[k] == b[k]; }
    }
  }

  lemma JoinEqual(a: seq<int>, b: seq<int>, c: seq<int>, d: seq<int>)
    requires |a| <= |c| && |b| <= |d|
    ensures a + b == c + d <==> a == c && b == d
  {
    if a + b == c + d {
      assert |a + b| == |c + d|;
      assert a == (a + b)[..|a|] && c == (c + d)[..|c|];
      assert b == (a + b)[|a|..] && d == (c + d)[|c|..];
    }
  }

  // ----- rows

  lemma {:induction false} DroppedRange(sel: seq<int>, n: nat)
    ensures CountBelow(sel, n) <= n && Dropped(Range(n), sel) == Range(n - CountBelow(sel, n))
  {
    if n > 0 {
      DroppedRange(sel, n - 1);
      assert Range(n)[..n - 1] == Range(n - 1);
    }
  }

  lemma {:induction false} DeletedRange(n: nat, t: nat)
    requires t <= n
    ensures Deleted(Range(n), t) == Range(if t < n then n - 1 else n)
  {
    if n > 0 {
      assert Range(n)[..n - 1] == Range(n - 1);
      if t < n - 1 { DeletedRange(n - 1, t); } else { DeletedHigh(Range(n - 1), t); }
    }
  }

  // A target above all entries changes nothing.
  lemma {:induction false} DeletedHigh(a: seq<int>, t: int)
    requires forall k :: 0 <= k < |a| ==> a[k] < t
    ensures Deleted(a, t) == a
  {
    if a != [] {
      DeletedHigh(a[..|a| - 1], t);
    }
  }

  lemma RestEntries(sel: seq<int>, n: int)
    requires sel != [] && Entries(sel, n)
    ensures Entries(Rest(sel), if sel[0] < n then n - 1 else n)
  {
  }

  // As many rows are kept as the deletions leave of the list of all rows.
  lemma {:induction false} RowsListed<T>(rows: seq<T>, sel: seq<int>)
    requires Entries(sel, |rows|)
    ensures Deletions(Range(|rows|), sel) == Range(|KeptRows(rows, sel)|)
    decreases |sel|
  {
    if sel != [] {
      var t := sel[0];
      DeletedRange(|rows|, t);
      RestEntries(sel, |rows|);
      RowsListed(if t < |rows| then Without(rows, t) else rows, Rest(sel));
    }
  }

  lemma {:induction false} SurvivorsSame<T>(rows: seq<T>, sel: seq<int>, sel': seq<int>, n: nat)
    requires n <= |rows| && forall x :: 0 <= x < n ==> (x in sel <==> x in sel')
    ensures Survivors(rows, sel, n) == Survivors(rows, sel', n)
  {
    if n > 0 { SurvivorsSame(rows, sel, sel', n - 1); }
  }

  lemma {:induction false} SurvivorsRest<T>(rows: seq<T>, sel: seq<int>, t: nat, rest: seq<int>, n: nat)
    requires t < |rows| && t in sel && n <= |rows|
    requires forall x :: 0 <= x < n && x != t ==> (x in sel <==> Renumber(x, t) in rest)
    ensures Survivors(rows, sel, n) == Survivors(Without(rows, t), rest, if n > t then n - 1 else n)
  {
    hide Survivors;
    if n == 0 {
      NoSurvivors(rows, sel);
      NoSurvivors(Without(rows, t), rest);
    } else {
      var x := n - 1;
      SurvivorsRest(rows, sel, t, rest, x);
      SurvivorStep(rows, sel, x, rows[x]);
      if x != t {
        SurvivorStep(Without(rows, t), rest, Renumber(x, t), rows[x]);
      }
    }
  }

  lemma NoSurvivors<T>(rows: seq<T>, sel: seq<int>)
    ensures Survivors(rows, sel, 0) == []
  {
  }

  lemma SurvivorStep<T>(rows: seq<T>, sel: seq<int>, x: nat, row: T)
    requires x < |rows| && rows[x] == row
    ensures Survivors(rows, sel, x + 1) == Survivors(rows, sel, x) + if x in sel then [] else [row]
  {
  }

  lemma {:induction false} SurviveAll<T>(rows: seq<T>, n: nat)
    requires n <= |rows|
    ensures Survivors(rows, [], n) == rows[..n]
  {
    if n > 0 { SurviveAll(rows, n - 1); }
  }

  // A harmless selection stays harmless, and goes on selecting the same rows.
  lemma HarmlessRest(sel: seq<int>, n: nat)
    requires sel != [] && Entries(sel, n) && Harmless(sel, Range(n))
    ensures Harmless(Rest(sel), Range(if sel[0] < n then n - 1 else n))
    ensures forall x :: 0 <= x < n && x != sel[0] ==> (x in sel <==> Renumber(x, sel[0]) in Rest(sel))
  {
    var t, n' := sel[0], if sel[0] < n then n - 1 else n;
    forall x | 0 <= x < n && x != t ensures x in sel <==> Renumber(x, t) in Rest(sel) {
      SameSelected(sel, n, x);
    }
    forall y | 0 <= y < n' && RepeatsBelow(Rest(sel), y) ensures y in Rest(sel) {
      var x := if y < t then y else y + 1;
      assert Renumber(x, t) == y;
      RestRepeats(sel, x);
      assert Range(n)[x] == x;
      SameSelected(sel, n, x);
    }
  }

  lemma SameSelected(sel: seq<int>, n: nat, x: int)
    requires sel != [] && Harmless(sel, Range(n)) && 0 <= x < n && x != sel[0]
    ensures x in sel <==> Renumber(x, sel[0]) in Rest(sel)
  {
    RestMembers(sel, x);
    RepeatsFirst(sel, x);
    assert Range(n)[x] == x;
  }

  lemma {:induction false} HarmlessKeeps<T>(rows: seq<T>, sel: seq<int>)
    requires Entries(sel, |rows|) && Harmless(sel, Range(|rows|))
    ensures KeptRows(rows, sel) == Survivors(rows, sel, |rows|)
    decreases |sel|
  {
    hide Harmless;
    hide Entries;
    var n := |rows|;
    if sel == [] {
      SurviveAll(rows, n);
    } else {
      var t, rest := sel[0], Rest(sel);
      assert 0 <= t by { FirstEntry(sel, n); }
      RestEntries(sel, n);
      HarmlessRest(sel, n);
      if t < n {
        HarmlessKeeps(Without(rows, t), rest);
        SurvivorsRest(rows, sel, t, rest, n);
      } else {
        HarmlessKeeps(rows, rest);
        SurvivorsSame(rows, sel, rest, n);
      }
    }
  }

  lemma FirstEntry(sel: seq<int>, n: int)
    requires sel != [] && Entries(sel, n)
    ensures 0 <= sel[0] <= n
  {
  }

  // The removals take exactly the rows selected if and only if every row behind one that is selected
  // twice is selected, too; otherwise they take too many.
  lemma RowsExact<T>(rows: seq<T>, sel: seq<int>)
    requires Entries(sel, |rows|)
    ensures |KeptRows(rows, sel)| <= |Survivors(rows, sel, |rows|)|
    ensures KeptRows(rows, sel) == Survivors(rows, sel, |rows|) <==> Harmless(sel, Range(|rows|))
  {
    hide KeptRows;
    hide Survivors;
    hide Deletions;
    hide Dropped;
    hide Harmless;
    hide CountBelow;
    var n := |rows|;
    assert forall i :: 0 <= i < |sel| ==> 0 <= sel[i];
    hide Entries;
    RowsListed(rows, sel);
    DroppedRange(sel, n);
    SurvivorCount(rows, sel, n);
    ListExact(Range(n), sel);
    if Harmless(sel, Range(n)) { HarmlessKeeps(rows, sel); }
  }
}
