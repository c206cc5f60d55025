/** The calendar periods moment rounds to. Each unit cuts the time line at the boundaries
    PeriodStart(unit, dow, k), one per whole number k; startOf and endOf are the two ends of the
    piece an instant lies in. dow is the first weekday of the locale, used by Week only. */
module Periods {
  import opened Arithmetic
  import opened Gregorian
  import opened Dates

  datatype Unit = YearUnit | QuarterUnit | MonthUnit | WeekUnit | IsoWeekUnit | DayUnit | HourUnit | MinuteUnit | SecondUnit

  function PeriodStart(unit: Unit, dow: int, k: int): int {
    match unit
    case YearUnit => Instant(MonthStart(12 * k), 0)
    case QuarterUnit => Instant(MonthStart(3 * k), 0)
    case MonthUnit => Instant(MonthStart(k), 0)
    case WeekUnit => Instant(7 * k + dow - 4, 0)
    case IsoWeekUnit => Instant(7 * k - 3, 0)
    case DayUnit => Instant(k, 0)
    case HourUnit => k * MS_PER_HOUR
    case MinuteUnit => k * MS_PER_MINUTE
    case SecondUnit => k * MS_PER_SECOND
  }

  function PeriodIndex(unit: Unit, dow: int, t: int): int {
    match unit
    case YearUnit => MonthOf(t) / 12
    case QuarterUnit => MonthOf(t) / 3
    case MonthUnit => MonthOf(t)
    case WeekUnit => (Day(t) + 4 - dow) / 7
    case IsoWeekUnit => (Day(t) + 3) / 7
    case DayUnit => Day(t)
    case HourUnit => t / MS_PER_HOUR
    case MinuteUnit => t / MS_PER_MINUTE
    case SecondUnit => t / MS_PER_SECOND
  }

  function StartOf(unit: Unit, dow: int, t: int): int {
    PeriodStart(unit, dow, PeriodIndex(unit, dow, t))
  }

  function EndOf(unit: Unit, dow: int, t: int): int {
    PeriodStart(unit, dow, PeriodIndex(unit, dow, t) + 1) - 1
  }

  lemma DayBounds(t: int)
    ensures Instant(Day(t), 0) <= t < Instant(Day(t) + 1, 0)
  {
  }

  lemma DaysOrder(d: int, e: int)
    ensures Instant(d, 0) <= Instant(e, 0) <==> d <= e
  {
  }

  // Day boundaries from day d on, up to but not including day e.
  lemma WithinDays(t: int, d: int, e: int)
    ensures Instant(d, 0) <= t < Instant(e, 0) <==> d <= Day(t) < e
  {
    hide Instant;
    hide Day;
    DayBounds(t);
    DaysOrder(d, Day(t));
    DaysOrder(Day(t) + 1, d);
    DaysOrder(Day(t) + 1, e);
    DaysOrder(e, Day(t));
  }

  lemma WithinMonths(t: int, m: int, n: int)
    ensures Instant(MonthStart(m), 0) <= t < Instant(MonthStart(n), 0) <==> m <= MonthOf(t) < n
  {
    hide MonthStart;
    hide MonthFromDay;
    hide Day;
    hide Instant;
    WithinDays(t, MonthStart(m), MonthStart(n));
    var k := MonthOf(t);
    MonthsOrder(m, k);
    MonthsOrder(k + 1, m);
    MonthsOrder(k + 1, n);
    MonthsOrder(n, k);
  }

  lemma MonthsOrder(m: int, n: int)
    ensures MonthStart(m) <= MonthStart(n) <==> m <= n
  {
    hide MonthStart;
    if m < n { MonthStartIncreases(m, n); } else if n < m { MonthStartIncreases(n, m); }
  }

  // The period of index k is exactly the instants of that index.
  lemma PeriodExact(unit: Unit, dow: int, t: int, k: int)
    ensures PeriodStart(unit, dow, k) <= t < PeriodStart(unit, dow, k + 1) <==> PeriodIndex(unit, dow, t) == k
  {
    hide MonthStart;
    hide MonthOf;
    hide Day;
    hide Instant;
    match unit
    case YearUnit => WithinMonths(t, 12 * k, 12 * (k + 1)); Floors(MonthOf(t), 12, k);
    case QuarterUnit => WithinMonths(t, 3 * k, 3 * (k + 1)); Floors(MonthOf(t), 3, k);
    case MonthUnit => WithinMonths(t, k, k + 1);
    case WeekUnit => WithinDays(t, 7 * k + dow - 4, 7 * (k + 1) + dow - 4); Floors(Day(t) + 4 - dow, 7, k);
    case IsoWeekUnit => WithinDays(t, 7 * k - 3, 7 * (k + 1) - 3); Floors(Day(t) + 3, 7, k);
    case DayUnit => WithinDays(t, k, k + 1);
    case HourUnit => Floors(t, MS_PER_HOUR, k);
    case MinuteUnit => Floors(t, MS_PER_MINUTE, k);
    case SecondUnit => Floors(t, MS_PER_SECOND, k);
  }

  lemma BoundariesIncrease(unit: Unit, dow: int, k: int)
    ensures PeriodStart(unit, dow, k) < PeriodStart(unit, dow, k + 1)
  {
    hide MonthStart;
    match unit
    case YearUnit => MonthStartIncreases(12 * k, 12 * (k + 1));
    case QuarterUnit => MonthStartIncreases(3 * k, 3 * (k + 1));
    case MonthUnit => MonthStartIncreases(k, k + 1);
    case _ =>
  }

  // startOf and endOf of every unit cut time into periods with neither gap nor overlap.
  lemma PeriodsPartitionTime(unit: Unit, dow: int, t: int, u: int)
    ensures StartOf(unit, dow, t) <= t <= EndOf(unit, dow, t)
    ensures StartOf(unit, dow, StartOf(unit, dow, t)) == StartOf(unit, dow, t)
    ensures StartOf(unit, dow, t) <= u <= EndOf(unit, dow, t) <==> StartOf(unit, dow, u) == StartOf(unit, dow, t)
    ensures StartOf(unit, dow, u) == StartOf(unit, dow, t) ==> EndOf(unit, dow, u) == EndOf(unit, dow, t)
    ensures StartOf(unit, dow, EndOf(unit, dow, t) + 1) == EndOf(unit, dow, t) + 1
  {
    hide PeriodStart;
    hide PeriodIndex;
    var k, j := PeriodIndex(unit, dow, t), PeriodIndex(unit, dow, u);
    PeriodExact(unit, dow, t, k);
    PeriodExact(unit, dow, u, k);
    PeriodExact(unit, dow, u, j);
    BoundariesIncrease(unit, dow, k);
    BoundariesIncrease(unit, dow, k + 1);
    PeriodExact(unit, dow, PeriodStart(unit, dow, k), k);
    PeriodExact(unit, dow, PeriodStart(unit, dow, k), j);
    PeriodExact(unit, dow, PeriodStart(unit, dow, j), j);
    BoundariesIncrease(unit, dow, j);
    PeriodExact(unit, dow, PeriodStart(unit, dow, k + 1), k + 1);
  }

  // What the boundaries are: the first days of years, quarters and months, the locale's or
  // Monday's beginning of the week, at midnight.
  lemma BoundaryFields(unit: Unit, dow: int, k: int)
    requires 0 <= dow < 7
    ensures var b := PeriodStart(unit, dow, k);
      match unit
      case YearUnit => MonthOf(b) == 12 * k && DateOf(b) == 1 && TimeInDay(b) == 0
      case QuarterUnit => MonthOf(b) == 3 * k && DateOf(b) == 1 && TimeInDay(b) == 0
      case MonthUnit => MonthOf(b) == k && DateOf(b) == 1 && TimeInDay(b) == 0
      case WeekUnit => WeekDayOf(b) == dow && TimeInDay(b) == 0
      case IsoWeekUnit => WeekDayOf(b) == 1 && TimeInDay(b) == 0
      case DayUnit => TimeInDay(b) == 0
      case HourUnit => TimeInDay(b) % MS_PER_HOUR == 0
      case MinuteUnit => TimeInDay(b) % MS_PER_MINUTE == 0
      case SecondUnit => TimeInDay(b) % MS_PER_SECOND == 0
  {
    hide MonthStart;
    hide MonthOf;
    hide DateOf;
    match unit
    case YearUnit => FirstOfMonth(12 * k);
    case QuarterUnit => FirstOfMonth(3 * k);
    case MonthUnit => FirstOfMonth(k);
    case WeekUnit => InstantParts(7 * k + dow - 4, 0); DivUnique(7 * k + dow, 7, k, dow);
    case IsoWeekUnit => InstantParts(7 * k - 3, 0); DivUnique(7 * k + 1, 7, k, 1);
    case DayUnit => InstantParts(k, 0);
    case HourUnit => WholeOfDay(k, MS_PER_HOUR, 24);
    case MinuteUnit => WholeOfDay(k, MS_PER_MINUTE, 1440);
    case SecondUnit => WholeOfDay(k, MS_PER_SECOND, 86400);
  }

  lemma FirstOfMonth(n: int)
    ensures var b := Instant(MonthStart(n), 0); MonthOf(b) == n && DateOf(b) == 1 && TimeInDay(b) == 0
  {
    hide MonthStart;
    hide MonthOf;
    hide DateOf;
    hide TimeInDay;
    MonthStep(n);
    AtParts(n, 1, 0);
  }

  lemma WholeOfDay(k: int, unit: int, perDay: int)
    requires unit > 0 && perDay > 0 && unit * perDay == MS_PER_DAY
    ensures TimeInDay(k * unit) % unit == 0
  {
    var q, r := k / perDay, k % perDay;
    assert k * unit == (perDay * q + r) * unit == MS_PER_DAY * q + r * unit;
    assert 0 <= r * unit <= (perDay - 1) * unit;
    DivUnique(k * unit, MS_PER_DAY, q, r * unit);
    DivUnique(r * unit, unit, r, 0);
  }
}
