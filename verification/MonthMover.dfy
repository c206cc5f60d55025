/** Month navigation of the date picker. moveMonth lets a Date overflow into a wrong month and
    then steps the day down until it is back; it is proved to be clamped month addition. */
module MonthMover {
  import opened Arithmetic
  import opened Gregorian
  import opened Dates

  // The condition of the day-resetting loop: one of the three closures moveMonth builds.
  predicate OutsideMonth(now: int, mag: int, dir: int, month: int, newMonth: int) {
    if mag == 1 && dir == -1 then now == month else now != newMonth
  }

  // Only a month shorter than 31 days overflows, and then into a 31-day month of the same year.
  lemma ShortMonth(n: int)
    requires MonthLength(n) < 31
    ensures n % 12 != 11 && MonthLength(n + 1) == 31
    ensures (n + 1) / 12 == n / 12 && (n + 1) % 12 == n % 12 + 1
  {
    MonthStep(n);
    MonthStep(n + 1);
    DivUnique(n + 1, 12, n / 12, n % 12 + 1);
    hide MonthStart;
  }

  // Where At(n, day, time) falls, as seen through getUTCMonth.
  lemma Overflowed(n: int, day: int, time: int)
    requires 1 <= day <= 31 && 0 <= time < MS_PER_DAY
    ensures day <= MonthLength(n) ==> MonthOf(At(n, day, time)) == n
    ensures MonthLength(n) < day ==> MonthOf(At(n, day, time)) == n + 1 && TimeInDay(At(n, day, time)) == time
  {
    hide MonthStart;
    hide MonthFromDay;
    MonthStep(n);
    if day <= MonthLength(n) {
      AtParts(n, day, time);
    } else {
      ShortMonth(n);
      AtOverflow(n, day, time);
      AtParts(n + 1, day - MonthLength(n), time);
    }
  }

  // One turn of the loop: setUTCDate(day - 1) in the wrong month, then setUTCMonth back.
  lemma ResetStep(n: int, day: int, time: int)
    requires 1 <= day <= 31 && 0 <= time < MS_PER_DAY && MonthLength(n) < day
    ensures var t := At(n + 1, day - 1, time);
      MonthOf(At(n, day, time)) == n + 1 && TimeInDay(At(n, day, time)) == time &&
      MonthOf(t) == n + 1 && DateOf(t) == day - 1 && TimeInDay(t) == time && 12 * YearOf(t) + MonthNumber(n) == n
  {
    hide MonthStart;
    hide MonthFromDay;
    MonthStep(n);
    Overflowed(n, day, time);
    ShortMonth(n);
    AtParts(n + 1, day - 1, time);
  }

  lemma NeighbourMonths(n: int)
    ensures MonthNumber(n + 1) != MonthNumber(n)
  {
    if n % 12 == 11 { DivUnique(n + 1, 12, n / 12 + 1, 0); } else { DivUnique(n + 1, 12, n / 12, n % 12 + 1); }
  }

  // Dec -> Jan is 12 and Jan -> Dec is -1.
  lemma WrappedMonth(t: int, dir: int)
    requires dir == 1 || dir == -1
    ensures 12 * YearOf(t) + MonthNumber(MonthOf(t)) == MonthOf(t)
    ensures var m := MonthNumber(MonthOf(t)) + dir;
      MonthNumber(MonthOf(t) + dir) == if m < 0 || m > 11 then (m + 12) % 12 else m
  {
    hide MonthOf;
    var n := MonthOf(t);
    var m := n % 12 + dir;
    if m < 0 { DivUnique(n + dir, 12, n / 12 - 1, 11); }
    else if m > 11 { DivUnique(n + dir, 12, n / 12 + 1, 0); }
    else { DivUnique(n + dir, 12, n / 12, m); }
  }

  // Clamped month addition: the month distance away, on the same day or else its last day.
  function Moved(t: int, distance: int): int {
    Clamped(MonthOf(t) + distance, DateOf(t), TimeInDay(t))
  }

  lemma MovedParts(t: int, distance: int)
    ensures var n := MonthOf(t) + distance;
      Moved(t, distance) == Clamped(n, DateOf(t), TimeInDay(t)) && MonthOf(Moved(t, distance)) == n && TimeInDay(Moved(t, distance)) == TimeInDay(t) &&
      DateOf(Moved(t, distance)) == Min(DateOf(t), MonthLength(n))
    ensures distance == 0 ==> Moved(t, distance) == t
  {
    hide MonthLength;
    hide MonthOf;
    hide DateOf;
    hide TimeInDay;
    hide At;
    var n := MonthOf(t) + distance;
    Parts(t);
    MonthStep(n);
    AtParts(n, Min(DateOf(t), MonthLength(n)), TimeInDay(t));
  }

  // A null date stands for the undefined that moveMonth passes through.
  method MoveMonth(date: JsDate?, distance: int) returns (result: JsDate?)
    ensures date == null ==> result == null
    ensures date != null ==> result != null && result.time == Moved(date.time, distance)
    ensures date != null && distance == 0 ==> result == date
    ensures date != null && distance != 0 ==> fresh(result)
    decreases if distance < 0 then -distance else distance
  {
    hide MonthLength;
    hide MonthOf;
    hide DateOf;
    hide TimeInDay;
    hide At;
    hide MonthNumber;
    hide YearOf;
    if date == null {
      return null;
    }
    Parts(date.time);
    MovedParts(date.time, distance);
    if distance == 0 {
      return date;
    }
    var newDate := new JsDate(date.time);
    var day := DateOf(date.time);
    var month := MonthNumber(MonthOf(date.time));
    var mag := if distance < 0 then -distance else distance;
    var dir := if distance > 0 then 1 else -1;
    ghost var n := MonthOf(date.time) + distance;
    ghost var time := TimeInDay(date.time);
    var newMonth;
    if mag == 1 {
      newMonth := month + dir;
      newDate.SetUTCMonth(newMonth);
      WrappedMonth(date.time, dir);
      if newMonth < 0 || newMonth > 11 {
        newMonth := (newMonth + 12) % 12;
      }
    } else {
      // Single steps, each of which may clamp the day,
      for i := 0 to mag
        invariant fresh(newDate)
        invariant MonthOf(newDate.time) == MonthOf(date.time) + (if dir > 0 then i as int else -i)
        invariant TimeInDay(newDate.time) == time
      {
        MovedParts(newDate.time, dir);
        newDate := MoveMonth(newDate, dir);
      }
      // so the original day is tried again at the end.
      newMonth := MonthNumber(MonthOf(newDate.time));
      newDate.SetUTCDate(day);
    }
    assert newDate.time == At(n, day, time) && newMonth == MonthNumber(n);
    MonthStep(n);
    NeighbourMonths(n);
    Overflowed(n, day, time);
    while OutsideMonth(MonthNumber(MonthOf(newDate.time)), mag, dir, month, newMonth)
      invariant fresh(newDate)
      invariant Min(DateOf(date.time), MonthLength(n)) <= day <= DateOf(date.time)
      invariant newDate.time == At(n, day, time)
      invariant MonthOf(newDate.time) == if MonthLength(n) < day then n + 1 else n
      decreases day
    {
      ResetStep(n, day, time);
      day := day - 1;
      newDate.SetUTCDate(day);
      newDate.SetUTCMonth(newMonth);
      Overflowed(n, day, time);
    }
    result := newDate;
  }

  method MoveYear(date: JsDate?, distance: int) returns (result: JsDate?)
    ensures date == null ==> result == null
    ensures date != null ==> result != null
    ensures date != null ==> result.time == Moved(date.time, 12 * distance)
  {
    hide *;
    result := MoveMonth(date, distance * 12);
  }
}
