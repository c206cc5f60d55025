/** Date values of ECMA-262 5.1 in UTC: an instant is a whole number of milliseconds since
    1970-01-01T00:00:00Z, and a Date object is a mutable instant. The functions describe what
    the getters read and what the setters leave; the class has the setters the two date
    libraries call. Instants are unbounded: the 8.64e15 ms limit of section 15.9.1.1 is not modelled. */
module Dates {
  import opened Arithmetic
  import opened Gregorian

  const MS_PER_DAY := 86400000
  const MS_PER_HOUR := 3600000
  const MS_PER_MINUTE := 60000
  const MS_PER_SECOND := 1000

  function Day(t: int): int { t / MS_PER_DAY }

  function TimeInDay(t: int): int { t % MS_PER_DAY }

  function Instant(day: int, time: int): int { day * MS_PER_DAY + time }

  // The fields of a time within a day, and section 15.9.1.11 that composes them.
  function Hour(time: int): int { time / MS_PER_HOUR }

  function Minute(time: int): int { time / MS_PER_MINUTE % 60 }

  function Second(time: int): int { time / MS_PER_SECOND % 60 }

  function Millisecond(time: int): int { time % MS_PER_SECOND }

  function MakeTime(hour: int, minute: int, second: int, ms: int): int {
    hour * MS_PER_HOUR + minute * MS_PER_MINUTE + second * MS_PER_SECOND + ms
  }

  // The absolute month, the day of the month and the weekday of an instant.
  function MonthOf(t: int): int { MonthFromDay(Day(t)) }

  function DateOf(t: int): (d: int)
    ensures 1 <= d <= 31
  {
    Date(Day(t))
  }

  function YearOf(t: int): int { MonthOf(t) / 12 }

  function WeekDayOf(t: int): int { WeekDay(Day(t)) }

  // Day d of absolute month n at a time of day; d may lie outside the month.
  function At(n: int, d: int, time: int): int {
    Instant(MonthStart(n) + d - 1, time)
  }

  // Section 15.9.4.3: Date.UTC reads a year from 0 to 99 as one of the twentieth century.
  predicate TwoDigitYear(y: int) { 0 <= y <= 99 }

  function DateUTC(year: int, month: int, date: int): int {
    At(12 * (if TwoDigitYear(year) then 1900 + year else year) + month, date, 0)
  }

  function Min(a: int, b: int): int { if a < b then a else b }

  // Day d of month n, or the last day of the month when the month is shorter.
  function Clamped(n: int, d: int, time: int): int {
    At(n, Min(d, MonthLength(n)), time)
  }

  // Date.UTC of the fields of a day is that day, except in the years it moves.
  lemma UTCDateRoundTrip(day: int)
    ensures DateUTC(Year(day), Month(day), Date(day)) == Instant(day, 0) <==> !(0 <= Year(day) <= 99)
  {
    hide MonthStart;
    hide MonthFromDay;
    hide Date;
    CivilRoundTrip(day);
    var n := 12 * Year(day) + Month(day);
    MonthStartIncreases(n, n + 22800);
    assert 12 * (1900 + Year(day)) + Month(day) == n + 22800;
  }

  // The fields of Date.UTC of a valid date are that date, with the same exception.
  lemma UTCDateFields(year: int, month: int, date: int)
    requires 0 <= month < 12 && 1 <= date <= MonthLength(12 * year + month)
    ensures var t := DateUTC(year, month, date);
      (YearOf(t) == year && MonthNumber(MonthOf(t)) == month && DateOf(t) == date && TimeInDay(t) == 0) <==> !(0 <= year <= 99)
  {
    hide MonthStart;
    hide MonthFromDay;
    hide Date;
    hide MonthLength;
    if TwoDigitYear(year) {
      var n := 12 * (1900 + year) + month;
      DivUnique(n, 12, 1900 + year, month);
      MovedYear(n, date);
    } else {
      CivilFields(year, month, date);
      InstantParts(MakeDay(year, month, date), 0);
    }
  }

  // Up to 31 days from the first of a month are not before that month.
  lemma MovedYear(n: int, date: int)
    requires 1 <= date
    ensures n / 12 <= YearOf(At(n, date, 0))
  {
    hide MonthStart;
    hide MonthFromDay;
    var day := MonthStart(n) + date - 1;
    InstantParts(day, 0);
    var k := MonthFromDay(day);
    if k < n && k + 1 < n { MonthStartIncreases(k + 1, n); }
    assert n <= k;
  }

  lemma InstantParts(day: int, time: int)
    requires 0 <= time < MS_PER_DAY
    ensures Day(Instant(day, time)) == day && TimeInDay(Instant(day, time)) == time
  {
    DivUnique(Instant(day, time), MS_PER_DAY, day, time);
  }

  lemma TimeParts(hour: int, minute: int, second: int, ms: int)
    requires 0 <= minute < 60 && 0 <= second < 60 && 0 <= ms < 1000
    ensures var f := MakeTime(hour, minute, second, ms);
      Hour(f) == hour && Minute(f) == minute && Second(f) == second && Millisecond(f) == ms
  {
    var f := MakeTime(hour, minute, second, ms);
    DivUnique(f, MS_PER_HOUR, hour, minute * MS_PER_MINUTE + second * MS_PER_SECOND + ms);
    DivUnique(f, MS_PER_MINUTE, 60 * hour + minute, second * MS_PER_SECOND + ms);
    DivUnique(60 * hour + minute, 60, hour, minute);
    DivUnique(f, MS_PER_SECOND, 60 * (60 * hour + minute) + second, ms);
    DivUnique(60 * (60 * hour + minute) + second, 60, 60 * hour + minute, second);
  }

  lemma TimeFields(f: int)
    ensures 0 <= Minute(f) < 60 && 0 <= Second(f) < 60 && 0 <= Millisecond(f) < 1000
    ensures f == MakeTime(Hour(f), Minute(f), Second(f), Millisecond(f))
    ensures 0 <= f < MS_PER_DAY ==> 0 <= Hour(f) < 24
  {
    var s := f / 1000;
    var m := s / 60;
    DivUnique(f, MS_PER_MINUTE, m, s % 60 * 1000 + f % 1000);
    DivUnique(f, MS_PER_HOUR, m / 60, m % 60 * MS_PER_MINUTE + s % 60 * 1000 + f % 1000);
  }

  lemma Parts(t: int)
    ensures t == At(MonthOf(t), DateOf(t), TimeInDay(t))
    ensures 1 <= DateOf(t) <= MonthLength(MonthOf(t))
    ensures 0 <= TimeInDay(t) < MS_PER_DAY
  {
    hide MonthStart;
    hide MonthFromDay;
  }

  lemma AtParts(n: int, d: int, time: int)
    requires 1 <= d <= MonthLength(n) && 0 <= time < MS_PER_DAY
    ensures MonthOf(At(n, d, time)) == n && DateOf(At(n, d, time)) == d && TimeInDay(At(n, d, time)) == time
  {
    hide MonthStart;
    hide MonthFromDay;
    InstantParts(MonthStart(n) + d - 1, time);
    MonthUnique(MonthStart(n) + d - 1, n);
  }

  lemma AtOverflow(n: int, d: int, time: int)
    ensures At(n, d, time) == At(n + 1, d - MonthLength(n), time)
  {
    hide MonthStart;
  }

  // Instants are ordered as their days, and days of different months as their months.
  lemma AtOrder(n: int, d: int, time: int, n': int, d': int, time': int)
    requires n < n' && 0 <= time < MS_PER_DAY && 0 <= time' < MS_PER_DAY
    requires d <= MonthLength(n) && 1 <= d'
    ensures At(n, d, time) < At(n', d', time')
  {
    hide MonthStart;
    if n + 1 < n' { MonthStartIncreases(n + 1, n'); }
    assert MonthStart(n) + d - 1 < MonthStart(n') + d' - 1;
  }

  class JsDate {
    var time: int

    constructor (time: int)
      ensures this.time == time
    {
      this.time := time;
    }

    method SetUTCDate(date: int)
      modifies this
      ensures time == At(MonthOf(old(time)), date, TimeInDay(old(time)))
    {
      time := At(MonthOf(time), date, TimeInDay(time));
    }

    method SetUTCMonth(month: int)
      modifies this
      ensures time == At(12 * YearOf(old(time)) + month, DateOf(old(time)), TimeInDay(old(time)))
    {
      time := At(12 * YearOf(time) + month, DateOf(time), TimeInDay(time));
    }

    method SetUTCMonthAndDate(month: int, date: int)
      modifies this
      ensures time == At(12 * YearOf(old(time)) + month, date, TimeInDay(old(time)))
    {
      time := At(12 * YearOf(time) + month, date, TimeInDay(time));
    }

    method SetUTCFullYear(year: int)
      modifies this
      ensures time == At(12 * year + MonthOf(old(time)) % 12, DateOf(old(time)), TimeInDay(old(time)))
    {
      time := At(12 * year + MonthOf(time) % 12, DateOf(time), TimeInDay(time));
    }

    method SetTime(time: int)
      modifies this
      ensures this.time == time
    {
      this.time := time;
    }

    // The setters below take one argument, so the smaller fields stay.
    method SetUTCHours(hours: int)
      modifies this
      ensures time == var f := TimeInDay(old(time));
        Instant(Day(old(time)), MakeTime(hours, Minute(f), Second(f), Millisecond(f)))
    {
      var f := TimeInDay(time);
      time := Instant(Day(time), MakeTime(hours, Minute(f), Second(f), Millisecond(f)));
    }

    method SetUTCMinutes(minutes: int)
      modifies this
      ensures time == var f := TimeInDay(old(time));
        Instant(Day(old(time)), MakeTime(Hour(f), minutes, Second(f), Millisecond(f)))
    {
      var f := TimeInDay(time);
      time := Instant(Day(time), MakeTime(Hour(f), minutes, Second(f), Millisecond(f)));
    }

    method SetUTCSeconds(seconds: int)
      modifies this
      ensures time == var f := TimeInDay(old(time));
        Instant(Day(old(time)), MakeTime(Hour(f), Minute(f), seconds, Millisecond(f)))
    {
      var f := TimeInDay(time);
      time := Instant(Day(time), MakeTime(Hour(f), Minute(f), seconds, Millisecond(f)));
    }

    method SetUTCMilliseconds(ms: int)
      modifies this
      ensures time == var f := TimeInDay(old(time));
        Instant(Day(old(time)), MakeTime(Hour(f), Minute(f), Second(f), ms))
    {
      var f := TimeInDay(time);
      time := Instant(Day(time), MakeTime(Hour(f), Minute(f), Second(f), ms));
    }
  }
}
