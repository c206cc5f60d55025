/** A row of date pickers kept in order. Moving one picker past its neighbours makes dateUpdated
    move them along; setting a neighbour raises changeDate again, which re-enters dateUpdated and
    is stopped by the updating flag. */
module RangePicker {
  import opened Options

  // The dates a picker accepts, from startDate to endDate; a missing bound is infinite.
  datatype Bounds = Bounds(start: Option<int>, end: Option<int>)

  predicate InBounds(b: Bounds, v: int) {
    (b.start.Some? ==> b.start.value <= v) && (b.end.Some? ==> v <= b.end.value)
  }

  // What update leaves in a picker: a date out of bounds is dropped, which reads as an invalid Date.
  function Kept(b: Bounds, v: int): Option<int> {
    if InBounds(b, v) then Some(v) else None
  }

  // A date from the start to the end, both included, is kept, any other dropped; no bound keeps all.
  lemma KeptIs(start: int, end: int, v: int)
    ensures Kept(Bounds(Some(start), Some(end)), v) == if start <= v <= end then Some(v) else None
    ensures Kept(Bounds(Some(start), None), v) == if start <= v then Some(v) else None
    ensures Kept(Bounds(None, Some(end)), v) == if v <= end then Some(v) else None
    ensures Kept(Bounds(None, None), v) == Some(v)
  {
  }

  // Comparisons with an invalid Date are false.
  predicate Before(a: Option<int>, b: Option<int>) {
    a.Some? && b.Some? && a.value < b.value
  }

  // The while loops of dateUpdated: set every picker from i down, or up, that v passes.
  function SweptLeft(picked: seq<Option<int>>, dates: seq<Option<int>>, bounds: seq<Bounds>, i: int, v: int): (r: seq<Option<int>>)
    requires -1 <= i < |picked| == |dates| == |bounds|
    ensures |r| == |picked|
    decreases i + 1
  {
    if i >= 0 && Before(Some(v), dates[i]) then
      SweptLeft(picked[i := Kept(bounds[i], v)], dates, bounds, i - 1, v)
    else picked
  }

  function SweptRight(picked: seq<Option<int>>, dates: seq<Option<int>>, bounds: seq<Bounds>, i: int, v: int): (r: seq<Option<int>>)
    requires 0 <= i <= |picked| == |dates| == |bounds|
    ensures |r| == |picked|
    decreases |picked| - i
  {
    if i < |picked| && Before(dates[i], Some(v)) then
      SweptRight(picked[i := Kept(bounds[i], v)], dates, bounds, i + 1, v)
    else picked
  }

  // The pickers after dateUpdated for picker i.
  function Cascade(picked: seq<Option<int>>, dates: seq<Option<int>>, bounds: seq<Bounds>, i: int): (r: seq<Option<int>>)
    requires 0 <= i < |picked| == |dates| == |bounds|
    ensures |r| == |picked|
  {
    if Before(picked[i], dates[i]) then SweptLeft(picked, dates, bounds, i, picked[i].value)
    else if Before(dates[i], picked[i]) then SweptRight(picked, dates, bounds, i, picked[i].value)
    else picked
  }

  class DateRangePicker {
    const bounds: seq<Bounds>
    var picked: seq<Option<int>>
    var dates: seq<Option<int>>
    var updating: bool

    predicate Valid()
      reads this
    {
      |picked| == |dates| == |bounds|
    }

    constructor (bounds: seq<Bounds>, picked: seq<Option<int>>)
      requires |bounds| == |picked|
      ensures Valid() && !updating && this.bounds == bounds && this.picked == picked == dates
    {
      this.bounds := bounds;
      this.picked := picked;
      dates := picked;
      updating := false;
    }

    // setUTCDate of picker j: update, then trigger changeDate.
    method SetUTCDate(j: int, v: int)
      requires Valid() && 0 <= j < |picked|
      modifies this
      ensures Valid() && updating == old(updating)
      ensures old(updating) ==> picked == old(picked)[j := Kept(bounds[j], v)] && dates == old(dates)
      ensures !old(updating) ==>
        picked == dates == Cascade(old(picked)[j := Kept(bounds[j], v)], old(dates), bounds, j)
      decreases if updating then 1 else 3
    {
      picked := picked[j := Kept(bounds[j], v)];
      DateUpdated(j);
    }

    // The clear button of picker j: update from an empty input, then trigger changeDate.
    method Clear(j: int)
      requires Valid() && 0 <= j < |picked| && !updating
      modifies this
      ensures Valid() && !updating
      ensures picked == dates == old(picked)[j := None]
      decreases 3
    {
      picked := picked[j := None];
      DateUpdated(j);
    }

    // The handler of changeDate; a target that is none of the inputs has index -1.
    method DateUpdated(target: int)
      requires Valid() && -1 <= target < |picked|
      modifies this
      ensures Valid()
      ensures old(updating) ==> updating && picked == old(picked) && dates == old(dates)
      ensures !old(updating) && target == -1 ==> updating && picked == old(picked) && dates == old(dates)
      ensures !old(updating) && target >= 0 ==>
        !updating && picked == dates == Cascade(old(picked), old(dates), bounds, target)
      decreases if updating then 0 else 2
    {
      if updating {
        return;
      }
      updating := true;
      var i := target;
      if i == -1 {
        return;
      }
      var newDate := picked[target];
      // getUTCDate returns a Date object even for an empty picker, so none is found empty and filled here
      ghost var before := picked;
      if Before(newDate, dates[i]) {
        // An earlier date drags along the pickers before it.
        while i >= 0 && Before(newDate, dates[i])
          invariant Valid() && updating && -1 <= i <= target && dates == old(dates)
          invariant SweptLeft(picked, dates, bounds, i, newDate.value) == SweptLeft(before, dates, bounds, target, newDate.value)
          decreases i + 1
        {
          SetUTCDate(i, newDate.value);
          i := i - 1;
        }
      } else if Before(dates[i], newDate) {
        // A later one, those behind it.
        while i < |picked| && Before(dates[i], newDate)
          invariant Valid() && updating && target <= i <= |picked| && dates == old(dates)
          invariant SweptRight(picked, dates, bounds, i, newDate.value) == SweptRight(before, dates, bounds, target, newDate.value)
          decreases |picked| - i
        {
          SetUTCDate(i, newDate.value);
          i := i + 1;
        }
      }
      dates := picked;
      updating := false;
    }
  }

  // The pickers that have a date are in order.
  predicate InOrder(dates: seq<Option<int>>) {
    forall j, k :: 0 <= j < k < |dates| && dates[j].Some? && dates[k].Some? ==> dates[j].value <= dates[k].value
  }

  // Pickers lo to hi all have a date.
  predicate Filled(dates: seq<Option<int>>, lo: int, hi: int)
    requires 0 <= lo && hi < |dates|
  {
    forall k :: lo <= k <= hi ==> dates[k].Some?
  }

  function Min(a: int, b: int): int { if a < b then a else b }

  function Max(a: int, b: int): int { if a < b then b else a }

  // Picker i passes picker j when it moves to v.
  predicate Passes(dates: seq<Option<int>>, i: int, v: int, j: int)
    requires 0 <= i < |dates| && 0 <= j < |dates|
  {
    dates[j].Some? && ((j < i && v < dates[j].value) || (i < j && dates[j].value < v))
  }

  // It does so without an empty picker on the way, itself included.
  predicate Reaches(dates: seq<Option<int>>, i: int, v: int, j: int)
    requires 0 <= i < |dates| && 0 <= j < |dates|
  {
    Passes(dates, i, v, j) && Filled(dates, Min(i, j), Max(i, j))
  }

  // The date picker j is meant to be left with when picker i moves to v.
  function Meant(dates: seq<Option<int>>, i: int, v: int, j: int): Option<int>
    requires 0 <= i < |dates| && 0 <= j < |dates|
  {
    if j == i then Some(v)
    else if dates[j].None? then None
    else Some(if j < i then Min(dates[j].value, v) else Max(dates[j].value, v))
  }

  // A longer row is filled if its ends are and what is between them.
  lemma FilledEnds(dates: seq<Option<int>>)
    ensures forall j, i :: 0 <= j <= i < |dates| && Filled(dates, j, i) ==> dates[j].Some? && dates[i].Some?
    ensures forall j, i :: 0 <= j < i < |dates| && dates[i].Some? ==> (Filled(dates, j, i) <==> Filled(dates, j, i - 1))
    ensures forall j, i :: 0 <= i < j < |dates| && dates[i].Some? ==> (Filled(dates, i, j) <==> Filled(dates, i + 1, j))
    ensures forall i :: 0 <= i < |dates| && dates[i].Some? ==> Filled(dates, i, i)
  {
  }

  lemma {:induction false} LeftSweep(picked: seq<Option<int>>, dates: seq<Option<int>>, bounds: seq<Bounds>, i: int, v: int)
    requires InOrder(dates) && -1 <= i < |picked| == |dates| == |bounds|
    ensures var r := SweptLeft(picked, dates, bounds, i, v);
      forall j :: 0 <= j < |picked| ==> r[j] == if j <= i && Filled(dates, j, i) && v < dates[j].value then Kept(bounds[j], v) else picked[j]
    decreases i + 1
  {
    hide Filled;
    hide Kept;
    FilledEnds(dates);
    if i >= 0 && Before(Some(v), dates[i]) {
      var after := picked[i := Kept(bounds[i], v)];
      LeftSweep(after, dates, bounds, i - 1, v);
    }
  }

  lemma {:induction false} RightSweep(picked: seq<Option<int>>, dates: seq<Option<int>>, bounds: seq<Bounds>, i: int, v: int)
    requires InOrder(dates) && 0 <= i <= |picked| == |dates| == |bounds|
    ensures var r := SweptRight(picked, dates, bounds, i, v);
      forall j :: 0 <= j < |picked| ==> r[j] == if j >= i && Filled(dates, i, j) && dates[j].value < v then Kept(bounds[j], v) else picked[j]
    decreases |picked| - i
  {
    hide Filled;
    hide Kept;
    FilledEnds(dates);
    if i < |picked| && Before(dates[i], Some(v)) {
      var after := picked[i := Kept(bounds[i], v)];
      RightSweep(after, dates, bounds, i + 1, v);
    }
  }

  // Moving a picker sets every picker it reaches, drops the date of those that do not accept it, and
  // touches no other: an empty one stays empty. A picker that does not accept its own new date reaches
  // none.
  lemma CascadeIs(dates: seq<Option<int>>, bounds: seq<Bounds>, i: int, v: int)
    requires InOrder(dates) && 0 <= i < |dates| == |bounds|
    ensures var r := Cascade(dates[i := Kept(bounds[i], v)], dates, bounds, i);
      var takes := InBounds(bounds[i], v);
      forall j :: 0 <= j < |dates| ==> r[j] == if j == i || (takes && Reaches(dates, i, v, j)) then Kept(bounds[j], v) else dates[j]
  {
    var picked := dates[i := Kept(bounds[i], v)];
    LeftSweep(picked, dates, bounds, i, v);
    RightSweep(picked, dates, bounds, i, v);
  }

  // The pickers with a date stay in order exactly when the picker moved drops its date, or reaches all
  // it passes: an empty picker on the way, or in the place of the one moved, stops the sweep.
  lemma OrderKept(dates: seq<Option<int>>, bounds: seq<Bounds>, i: int, v: int)
    requires InOrder(dates) && 0 <= i < |dates| == |bounds|
    ensures var r := Cascade(dates[i := Kept(bounds[i], v)], dates, bounds, i);
      InOrder(r) <==> !InBounds(bounds[i], v) || ReachesAll(dates, i, v)
  {
    hide Cascade;
    hide Filled;
    var r := Cascade(dates[i := Kept(bounds[i], v)], dates, bounds, i);
    CascadeIs(dates, bounds, i, v);
    if InBounds(bounds[i], v) && !ReachesAll(dates, i, v) {
      var j :| 0 <= j < |dates| && Passes(dates, i, v, j) && !Reaches(dates, i, v, j);
      assert r[j] == dates[j] && r[i] == Some(v);
    }
  }

  predicate ReachesAll(dates: seq<Option<int>>, i: int, v: int)
    requires 0 <= i < |dates|
  {
    forall j :: 0 <= j < |dates| && Passes(dates, i, v, j) ==> Reaches(dates, i, v, j)
  }

  // Every neighbour with a date ends up at the minimum, or maximum, of its date and the new one exactly
  // when the picker moved accepts the date and reaches all it passes, and these accept the date, too.
  lemma NeighboursFollow(dates: seq<Option<int>>, bounds: seq<Bounds>, i: int, v: int)
    requires InOrder(dates) && 0 <= i < |dates| == |bounds|
    ensures var r := Cascade(dates[i := Kept(bounds[i], v)], dates, bounds, i);
      (forall j :: 0 <= j < |dates| ==> r[j] == Meant(dates, i, v, j)) <==>
      InBounds(bounds[i], v) && forall j :: 0 <= j < |dates| && Passes(dates, i, v, j) ==> Reaches(dates, i, v, j) && InBounds(bounds[j], v)
  {
    hide Cascade;
    hide Filled;
    CascadeIs(dates, bounds, i, v);
    var r := Cascade(dates[i := Kept(bounds[i], v)], dates, bounds, i);
    forall j | 0 <= j < |dates| && j != i
      ensures InBounds(bounds[i], v) ==> (r[j] == Meant(dates, i, v, j) <==> (Passes(dates, i, v, j) ==> Reaches(dates, i, v, j) && InBounds(bounds[j], v)))
    {
    }
    assert r[i] == Meant(dates, i, v, i) <==> InBounds(bounds[i], v);
  }

  // A row in which all pickers have a date keeps its dates and its order exactly when the picker moved
  // and all it passes accept the date.
  lemma FullRowKept(dates: seq<Option<int>>, bounds: seq<Bounds>, i: int, v: int)
    requires InOrder(dates) && Filled(dates, 0, |dates| - 1) && 0 <= i < |dates| == |bounds|
    ensures var r := Cascade(dates[i := Kept(bounds[i], v)], dates, bounds, i);
      InOrder(r) &&
      (Filled(r, 0, |r| - 1) <==>
        InBounds(bounds[i], v) && forall j :: 0 <= j < |dates| && Passes(dates, i, v, j) ==> InBounds(bounds[j], v))
  {
    hide Cascade;
    CascadeIs(dates, bounds, i, v);
    OrderKept(dates, bounds, i, v);
    var r := Cascade(dates[i := Kept(bounds[i], v)], dates, bounds, i);
    assert r[i] == Kept(bounds[i], v);
    forall j | 0 <= j < |dates| && Passes(dates, i, v, j) ensures Reaches(dates, i, v, j) {}
  }

  // ----- runs

  datatype Event = Move(picker: int, date: int) | Cleared(picker: int)

  predicate Known(events: seq<Event>, n: int) { forall e :: e in events ==> 0 <= e.picker < n }

  // The pickers after a run of moves and clearings, each handled before the next one is made.
  function AfterEvents(dates: seq<Option<int>>, bounds: seq<Bounds>, events: seq<Event>): (r: seq<Option<int>>)
    requires |dates| == |bounds| && Known(events, |dates|)
    ensures |r| == |dates|
    decreases |events|
  {
    if events == [] then dates
    else
      var before := AfterEvents(dates, bounds, events[..|events| - 1]);
      After(before, bounds, events[|events| - 1])
  }

  function After(dates: seq<Option<int>>, bounds: seq<Bounds>, e: Event): (r: seq<Option<int>>)
    requires |dates| == |bounds| && 0 <= e.picker < |dates|
    ensures |r| == |dates|
  {
    match e
    case Move(i, v) => Cascade(dates[i := Kept(bounds[i], v)], dates, bounds, i)
    case Cleared(i) => Cascade(dates[i := None], dates, bounds, i)
  }

  // The pickers are in order all along.
  predicate AlwaysInOrder(dates: seq<Option<int>>, bounds: seq<Bounds>, events: seq<Event>)
    requires |dates| == |bounds| && Known(events, |dates|)
    decreases |events|
  {
    InOrder(AfterEvents(dates, bounds, events)) &&
    (events != [] ==> AlwaysInOrder(dates, bounds, events[..|events| - 1]))
  }

  // Every picker moved reaches all it passes, or drops its date.
  predicate Unbroken(dates: seq<Option<int>>, bounds: seq<Bounds>, events: seq<Event>)
    requires |dates| == |bounds| && Known(events, |dates|)
    decreases |events|
  {
    events != [] ==>
      var rest, e := events[..|events| - 1], events[|events| - 1];
      assert e in events;
      Unbroken(dates, bounds, rest) &&
      (e.Move? && InBounds(bounds[e.picker], e.date) ==> ReachesAll(AfterEvents(dates, bounds, rest), e.picker, e.date))
  }

  // Over any run, from empty pickers or others in order, the pickers are in order all along exactly when
  // every picker moved reaches all it passes.
  lemma {:induction false} RunsKeepOrder(dates: seq<Option<int>>, bounds: seq<Bounds>, events: seq<Event>)
    requires InOrder(dates) && |dates| == |bounds| && Known(events, |dates|)
    ensures AlwaysInOrder(dates, bounds, events) <==> Unbroken(dates, bounds, events)
    decreases |events|
  {
    if events != [] {
      var rest, e := events[..|events| - 1], events[|events| - 1];
      assert e in events;
      RunsKeepOrder(dates, bounds, rest);
      var before := AfterEvents(dates, bounds, rest);
      if AlwaysInOrder(dates, bounds, rest) {
        if e.Move? { OrderKept(before, bounds, e.picker, e.date); }
      }
    }
  }

  // Without bounds and clearings no run takes pickers that all have dates, in order, out of it.
  lemma {:induction false} FullRunsKeepOrder(dates: seq<Option<int>>, bounds: seq<Bounds>, events: seq<Event>)
    requires InOrder(dates) && Filled(dates, 0, |dates| - 1) && |dates| == |bounds| && Known(events, |dates|)
    requires (forall b :: b in bounds ==> b == Bounds(None, None)) && forall e :: e in events ==> e.Move?
    ensures var r := AfterEvents(dates, bounds, events); InOrder(r) && Filled(r, 0, |r| - 1)
    decreases |events|
  {
    if events != [] {
      var e := events[|events| - 1];
      assert e in events && bounds[e.picker] in bounds;
      assert forall j :: 0 <= j < |bounds| ==> bounds[j] in bounds;
      FullRunsKeepOrder(dates, bounds, events[..|events| - 1]);
      FullRowKept(AfterEvents(dates, bounds, events[..|events| - 1]), bounds, e.picker, e.date);
    }
  }

  // Two empty pickers, the later one set first: the earlier one goes past it and nothing is swept.
  lemma EmptyStartBreaks(a: int, b: int)
    requires b < a
    ensures var free := Bounds(None, None);
      AfterEvents([None, None], [free, free], [Move(1, b), Move(0, a)]) == [Some(a), Some(b)]
    ensures !InOrder([Some(a), Some(b)])
  {
    var free := Bounds(None, None);
    var events := [Move(1, b), Move(0, a)];
    assert events[..1] == [Move(1, b)] && events[..1][..0] == [];
    assert AfterEvents([None, None], [free, free], events[..1]) == [None, Some(b)];
    assert [Some(a), Some(b)][0] == Some(a) && [Some(a), Some(b)][1] == Some(b);
  }

  // Three pickers, the one in the middle cleared: the first goes past the last.
  lemma ClearedGapBreaks(a: int, b: int, c: int, v: int)
    requires a <= b <= c < v
    ensures var free := Bounds(None, None);
      AfterEvents([Some(a), Some(b), Some(c)], [free, free, free], [Cleared(1), Move(0, v)]) == [Some(v), None, Some(c)]
    ensures !InOrder([Some(v), None, Some(c)])
  {
    var free := Bounds(None, None);
    var events := [Cleared(1), Move(0, v)];
    assert events[..1] == [Cleared(1)] && events[..1][..0] == [];
    assert AfterEvents([Some(a), Some(b), Some(c)], [free, free, free], events[..1]) == [Some(a), None, Some(c)];
    var gap: seq<Option<int>> := [Some(a), None, Some(c)];
    var r := [Some(v), None, Some(c)];
    assert gap[0 := Some(v)] == r;
    assert SweptRight(r, gap, [free, free, free], 1, v) == r;
    assert SweptRight(r, gap, [free, free, free], 0, v) == SweptRight(r[0 := Some(v)], gap, [free, free, free], 1, v);
    assert r[0] == Some(v) && r[2] == Some(c);
  }
}
