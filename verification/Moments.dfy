/** moment objects in UTC mode: a wrapper around a Date that its setters, add, startOf and endOf
    change in place. The methods are proved against MonthArithmetic and Periods. */
module Moments {
  import opened Arithmetic
  import opened Gregorian
  import opened Dates
  import opened MonthArithmetic
  import opened Periods

  // The three parts a moment duration keeps apart, and what add makes of a unit.
  datatype Span = Span(milliseconds: int, days: int, months: int)

  function OneOf(unit: Unit): Span {
    match unit
    case YearUnit => Span(0, 0, 12)
    case QuarterUnit => Span(0, 0, 3)
    case MonthUnit => Span(0, 0, 1)
    case WeekUnit => Span(0, 7, 0)
    case IsoWeekUnit => Span(0, 7, 0)
    case DayUnit => Span(0, 1, 0)
    case HourUnit => Span(MS_PER_HOUR, 0, 0)
    case MinuteUnit => Span(MS_PER_MINUTE, 0, 0)
    case SecondUnit => Span(MS_PER_SECOND, 0, 0)
  }

  function AddDays(t: int, days: int): int {
    t + days * MS_PER_DAY
  }

  // Milliseconds first, then days, then months.
  function Added(t: int, span: Span, sign: int): int {
    AddMonths(AddDays(t + span.milliseconds * sign, span.days * sign), span.months * sign)
  }

  lemma DateShift(t: int, days: int)
    ensures At(MonthOf(t), DateOf(t) + days, TimeInDay(t)) == AddDays(t, days)
  {
    hide MonthStart;
    hide MonthFromDay;
  }

  // The time fields that survive startOf(unit).
  function TimeReset(unit: Unit, t: int): int {
    var f := TimeInDay(t);
    Instant(Day(t),
      match unit
      case HourUnit => MakeTime(Hour(f), 0, 0, 0)
      case MinuteUnit => MakeTime(Hour(f), Minute(f), 0, 0)
      case SecondUnit => MakeTime(Hour(f), Minute(f), Second(f), 0)
      case _ => MakeTime(0, 0, 0, 0))
  }

  // Fields of a time whose smaller parts have been replaced by zeros or kept.
  lemma FieldsAfter(day: int, h: int, m: int, s: int, ms: int)
    requires 0 <= h < 24 && 0 <= m < 60 && 0 <= s < 60 && 0 <= ms < 1000
    ensures var t := Instant(day, MakeTime(h, m, s, ms)); var f := TimeInDay(t);
      Day(t) == day && Hour(f) == h && Minute(f) == m && Second(f) == s && Millisecond(f) == ms
  {
    hide Instant;
    hide Day;
    hide TimeInDay;
    hide Hour;
    hide Minute;
    hide Second;
    hide Millisecond;
    TimeParts(h, m, s, ms);
    InstantParts(day, MakeTime(h, m, s, ms));
  }

  lemma InstantOf(t: int)
    ensures Instant(Day(t), TimeInDay(t)) == t && 0 <= TimeInDay(t) < MS_PER_DAY
  {
  }

  // What the fall-through switch of startOf leaves, before the week and quarter fix-ups.
  function Switched(unit: Unit, dow: int, t: int): int {
    match unit
    case QuarterUnit => PeriodStart(MonthUnit, dow, MonthOf(t))
    case WeekUnit => PeriodStart(DayUnit, dow, Day(t))
    case IsoWeekUnit => PeriodStart(DayUnit, dow, Day(t))
    case _ => Periods.StartOf(unit, dow, t)
  }

  lemma NoFixUp(unit: Unit, dow: int, t: int)
    ensures !unit.QuarterUnit? && !unit.WeekUnit? && !unit.IsoWeekUnit? ==>
      Switched(unit, dow, t) == Periods.StartOf(unit, dow, t)
  {
    hide Periods.StartOf;
  }

  lemma SwitchResets(unit: Unit, dow: int, t: int)
    ensures var u := if unit.YearUnit? then MonthArithmetic.SetMonth(t, 0) else t;
      var v := if unit.YearUnit? || unit.QuarterUnit? || unit.MonthUnit?
               then At(MonthOf(u), 1, TimeInDay(u)) else u;
      TimeReset(unit, v) == Switched(unit, dow, t)
  {
    hide Day;
    hide TimeInDay;
    hide Hour;
    hide Minute;
    hide Second;
    hide MonthStart;
    hide MonthOf;
    hide MonthArithmetic.SetMonth;
    InstantOf(t);
    if unit.YearUnit? {
      JanuaryOf(t);
      var u := MonthArithmetic.SetMonth(t, 0);
      InstantOf(u);
      InstantParts(MonthStart(MonthOf(u)), TimeInDay(u));
    } else if unit.QuarterUnit? || unit.MonthUnit? {
      InstantParts(MonthStart(MonthOf(t)), TimeInDay(t));
    } else if unit.HourUnit? || unit.MinuteUnit? || unit.SecondUnit? {
      WithinDay(t);
    }
  }

  lemma JanuaryOf(t: int)
    ensures MonthOf(MonthArithmetic.SetMonth(t, 0)) == 12 * YearOf(t)
  {
    hide MonthStart;
    hide MonthOf;
    hide DateOf;
    hide TimeInDay;
    hide At;
    hide DaysInMonth;
    var n := 12 * YearOf(t);
    DaysInMonthIsLength(YearOf(t), 0);
    DivUnique(n, 12, YearOf(t), 0);
    DivUnique(n + 22800, 12, YearOf(t) + 1900, 0);
    MonthStep(n);
    MonthStep(n + 22800);
    Parts(t);
    AtParts(n, DateOf(t), TimeInDay(t));
  }

  // Hours, minutes and seconds counted from the epoch and from midnight.
  lemma WithinDay(t: int)
    ensures var f := TimeInDay(t);
      Instant(Day(t), MakeTime(Hour(f), 0, 0, 0)) == t / MS_PER_HOUR * MS_PER_HOUR &&
      Instant(Day(t), MakeTime(Hour(f), Minute(f), 0, 0)) == t / MS_PER_MINUTE * MS_PER_MINUTE &&
      Instant(Day(t), MakeTime(Hour(f), Minute(f), Second(f), 0)) == t / MS_PER_SECOND * MS_PER_SECOND
  {
    hide Day;
    hide TimeInDay;
    hide Hour;
    hide Minute;
    hide Second;
    hide Millisecond;
    var day, f := Day(t), TimeInDay(t);
    var h, m, s, ms := Hour(f), Minute(f), Second(f), Millisecond(f);
    InstantOf(t);
    TimeFields(f);
    DivUnique(t, MS_PER_HOUR, 24 * day + h, m * MS_PER_MINUTE + s * MS_PER_SECOND + ms);
    DivUnique(t, MS_PER_MINUTE, 60 * (24 * day + h) + m, s * MS_PER_SECOND + ms);
    DivUnique(t, MS_PER_SECOND, 60 * (60 * (24 * day + h) + m) + s, ms);
  }

  lemma WeekFixUp(dow: int, t: int)
    requires 0 <= dow < 7
    ensures var u := Switched(WeekUnit, dow, t);
      Added(u, Span(0, 0 - (WeekDayOf(u) + 7 - dow) % 7, 0), 1) == Periods.StartOf(WeekUnit, dow, t)
  {
    hide Day;
    hide MonthArithmetic.SetMonth;
    var d := Day(t);
    InstantParts(d, 0);
    var q, r := (d + 4 - dow) / 7, (d + 4 - dow) % 7;
    if r + dow < 7 { DivUnique(d + 4, 7, q, r + dow); } else { DivUnique(d + 4, 7, q + 1, r + dow - 7); }
    if r + dow < 7 { DivUnique(r + 7, 7, 1, r); } else { DivUnique(r, 7, 0, r); }
  }

  lemma IsoWeekFixUp(dow: int, t: int)
    ensures var u := Switched(IsoWeekUnit, dow, t);
      Added(u, Span(0, (if WeekDayOf(u) % 7 != 0 then 1 else 1 - 7) - WeekDayOf(u), 0), 1) ==
      Periods.StartOf(IsoWeekUnit, dow, t)
  {
    hide Day;
    hide MonthArithmetic.SetMonth;
    var d := Day(t);
    InstantParts(d, 0);
    var q, r := (d + 3) / 7, (d + 3) % 7;
    if r + 1 < 7 { DivUnique(d + 4, 7, q, r + 1); } else { DivUnique(d + 4, 7, q + 1, 0); }
  }

  lemma QuarterFixUp(dow: int, t: int)
    ensures var u := Switched(QuarterUnit, dow, t);
      MonthArithmetic.SetMonth(u, MonthNumber(MonthOf(u)) / 3 * 3) == Periods.StartOf(QuarterUnit, dow, t)
  {
    hide MonthStart;
    hide MonthOf;
    hide DateOf;
    hide TimeInDay;
    hide DaysInMonth;
    var n := MonthOf(t);
    var u := PeriodStart(MonthUnit, dow, n);
    FirstOfMonth(n);
    var value := MonthNumber(n) / 3 * 3;
    DaysInMonthIsLength(YearOf(u), value);
    MonthStep(12 * YearOf(u) + value);
    MonthStep(12 * (1900 + YearOf(u)) + value);
    DivUnique(n, 3, 4 * (n / 12) + n % 12 / 3, n % 12 % 3);
  }

  // One unit added to a boundary is the next boundary.
  lemma NextPeriod(unit: Unit, dow: int, t: int)
    requires 0 <= dow < 7
    ensures Added(Added(Periods.StartOf(unit, dow, t), OneOf(unit), 1), Span(1, 0, 0), -1) == Periods.EndOf(unit, dow, t)
  {
    hide PeriodIndex;
    hide MonthStart;
    hide Added;
    hide AddMonths;
    var k := PeriodIndex(unit, dow, t);
    var b := PeriodStart(unit, dow, k);
    AddedParts(b, OneOf(unit).milliseconds, OneOf(unit).days, OneOf(unit).months, 1);
    AddedParts(PeriodStart(unit, dow, k + 1), 1, 0, 0, -1);
    match unit
    case YearUnit => MonthsFromFirst(12 * k, 12);
    case QuarterUnit => MonthsFromFirst(3 * k, 3);
    case MonthUnit => MonthsFromFirst(k, 1);
    case _ =>
  }

  // Adding a span, or subtracting it, moves the instant by the milliseconds and days, and from there by
  // the months.
  lemma AddedIs(t: int, span: Span, sign: int)
    requires sign == 1 || sign == -1
    ensures Added(t, span, sign) == AddMonths(t + sign * (span.milliseconds + span.days * MS_PER_DAY), sign * span.months)
  {
    hide AddMonths;
    assert sign * (span.milliseconds + span.days * MS_PER_DAY) == span.milliseconds * sign + span.days * sign * MS_PER_DAY;
    assert sign * span.months == span.months * sign;
  }

  // It lands in the month that many months on, or back, on the same day or the last day of that month;
  // except for the Februaries that Date.UTC misleads.
  lemma AddedLands(t: int, span: Span, sign: int)
    requires sign == 1 || sign == -1
    ensures var u := t + sign * (span.milliseconds + span.days * MS_PER_DAY);
      var n, r := MonthOf(u) + sign * span.months, Added(t, span, sign);
      span.months == 0 || !Misclamped(u, n) ==>
        MonthOf(r) == n && DateOf(r) == Min(DateOf(u), MonthLength(n)) && TimeInDay(r) == TimeInDay(u)
  {
    hide Misclamped;
    hide MonthOf;
    hide DateOf;
    hide TimeInDay;
    hide MonthArithmetic.SetMonth;
    hide MonthLength;
    hide Added;
    AddedIs(t, span, sign);
    var u, k := t + sign * (span.milliseconds + span.days * MS_PER_DAY), sign * span.months;
    var n := MonthOf(u) + k;
    Parts(u);
    NoMonths(u);
    MonthStep(n);
    if span.months != 0 {
      var value := MonthNumber(MonthOf(u)) + k;
      assert 12 * YearOf(u) + value == n;
      SetMonthExact(u, value);
      AtParts(n, Min(DateOf(u), MonthLength(n)), TimeInDay(u));
    }
  }

  // Spans that have only one part.
  lemma AddedParts(t: int, ms: int, days: int, months: int, sign: int)
    requires sign == 1 || sign == -1
    ensures days == months == 0 ==> Added(t, Span(ms, days, months), sign) == t + ms * sign
    ensures ms == months == 0 ==> Added(t, Span(ms, days, months), sign) == t + days * sign * MS_PER_DAY
    ensures ms == days == 0 ==> Added(t, Span(ms, days, months), sign) == AddMonths(t, sign * months)
  {
    hide AddMonths;
    hide Added;
    AddedIs(t, Span(ms, days, months), sign);
    NoMonths(t + ms * sign);
    NoMonths(t + days * sign * MS_PER_DAY);
  }

  lemma NoMonths(t: int)
    ensures AddMonths(t, 0) == t
  {
    hide MonthArithmetic.SetMonth;
  }

  lemma MonthsFromFirst(n: int, k: int)
    ensures AddMonths(Instant(MonthStart(n), 0), k) == Instant(MonthStart(n + k), 0)
  {
    hide MonthStart;
    hide MonthOf;
    hide DateOf;
    hide TimeInDay;
    hide AddMonths;
    hide LandingDay;
    FirstOfMonth(n);
    Lands(Instant(MonthStart(n), 0), k);
  }

  class Moment {
    const d: JsDate
    const dow: int

    constructor (time: int, dow: int)
      ensures fresh(d) && d.time == time && this.dow == dow
    {
      d := new JsDate(time);
      this.dow := dow;
    }

    method Clone() returns (m: Moment)
      ensures fresh(m) && fresh(m.d) && m.d.time == d.time && m.dow == dow
    {
      m := new Moment(d.time, dow);
    }

    method SetMonth(value: int)
      modifies d
      ensures d.time == MonthArithmetic.SetMonth(old(d.time), value)
    {
      hide MonthOf;
      hide At;
      hide DateOf;
      hide DaysInMonth;
      hide TimeInDay;
      var dayOfMonth := Min(DateOf(d.time), DaysInMonth(YearOf(d.time), value));
      d.SetUTCMonthAndDate(value, dayOfMonth);
    }

    method Add(span: Span, sign: int)
      requires sign == 1 || sign == -1
      modifies d
      ensures d.time == Added(old(d.time), span, sign)
    {
      hide At;
      hide MonthOf;
      hide DateOf;
      hide TimeInDay;
      hide MonthArithmetic.SetMonth;
      hide MonthNumber;
      if span.milliseconds != 0 {
        d.SetTime(d.time + span.milliseconds * sign);
      }
      DateShift(d.time, span.days * sign);
      if span.days != 0 {
        d.SetUTCDate(DateOf(d.time) + span.days * sign);
      }
      if span.months != 0 {
        SetMonth(MonthNumber(MonthOf(d.time)) + span.months * sign);
      }
    }

    // The fields startOf resets, from the coarsest its unit falls through to.
    method ResetTime(unit: Unit)
      modifies d
      ensures d.time == TimeReset(unit, old(d.time))
    {
      hide Day;
      hide TimeInDay;
      hide Instant;
      hide Hour;
      hide Minute;
      hide Second;
      hide Millisecond;
      hide MakeTime;
      ghost var day, f := Day(d.time), TimeInDay(d.time);
      ghost var h, m, s, ms := Hour(f), Minute(f), Second(f), Millisecond(f);
      TimeFields(f);
      InstantOf(d.time);
      if !unit.HourUnit? && !unit.MinuteUnit? && !unit.SecondUnit? {
        d.SetUTCHours(0);
        h := 0;
      }
      FieldsAfter(day, h, m, s, ms);
      if !unit.MinuteUnit? && !unit.SecondUnit? {
        d.SetUTCMinutes(0);
        m := 0;
      }
      FieldsAfter(day, h, m, s, ms);
      if !unit.SecondUnit? {
        d.SetUTCSeconds(0);
        s := 0;
      }
      FieldsAfter(day, h, m, s, ms);
      d.SetUTCMilliseconds(0);
    }

    method StartOf(unit: Unit)
      requires 0 <= dow < 7
      modifies d
      ensures d.time == Periods.StartOf(unit, dow, old(d.time))
    {
      hide *;
      ghost var t := d.time;
      if unit.YearUnit? {
        SetMonth(0);
      }
      if unit.YearUnit? || unit.QuarterUnit? || unit.MonthUnit? {
        d.SetUTCDate(1);
      }
      SwitchResets(unit, dow, t);
      ResetTime(unit);
      assert d.time == Switched(unit, dow, t);
      // Back to the first day of the week.
      if unit.WeekUnit? {
        WeekFixUp(dow, t);
        var weekday := (WeekDayOf(d.time) + 7 - dow) % 7;
        Add(Span(0, 0 - weekday, 0), 1);
      }
      if unit.IsoWeekUnit? {
        IsoWeekFixUp(dow, t);
        var day := WeekDayOf(d.time);
        Add(Span(0, (if day % 7 != 0 then 1 else 1 - 7) - day, 0), 1);
      }
      // Back to the first month of the quarter.
      if unit.QuarterUnit? {
        QuarterFixUp(dow, t);
        SetMonth(MonthNumber(MonthOf(d.time)) / 3 * 3);
      }
      NoFixUp(unit, dow, t);
    }

    method EndOf(unit: Unit)
      requires 0 <= dow < 7
      modifies d
      ensures d.time == Periods.EndOf(unit, dow, old(d.time))
    {
      hide *;
      NextPeriod(unit, dow, d.time);
      StartOf(unit);
      Add(OneOf(unit), 1);
      Add(Span(1, 0, 0), -1);
    }
  }

  // Whole months and the rest between two moments, counted on clones of base.
  method PositiveMomentsDifference(base: Moment, other: Moment) returns (r: Difference)
    ensures r == PositiveDifference(base.d.time, other.d.time)
  {
    hide Added;
    hide AddMonths;
    hide MonthOf;
    hide MonthNumber;
    var months := MonthNumber(MonthOf(other.d.time)) - MonthNumber(MonthOf(base.d.time)) +
      (YearOf(other.d.time) - YearOf(base.d.time)) * 12;
    MonthOfIs(base.d.time);
    MonthOfIs(other.d.time);
    AddedParts(base.d.time, 0, 0, months, 1);
    AddedParts(base.d.time, 0, 0, months - 1, 1);
    var probe := base.Clone();
    probe.Add(Span(0, 0, months), 1);
    if probe.d.time > other.d.time {
      months := months - 1;
    }
    probe := base.Clone();
    probe.Add(Span(0, 0, months), 1);
    r := Difference(months, other.d.time - probe.d.time);
  }

  // The fractional month difference of diff, from a to b with the sign reversed.
  method MonthDifference(a: Moment, b: Moment) returns (r: real)
    ensures r == MonthDiff(a.d.time, b.d.time)
  {
    hide Added;
    hide AddMonths;
    hide MonthOf;
    hide MonthNumber;
    var wholeMonthDiff := (YearOf(b.d.time) - YearOf(a.d.time)) * 12 +
      (MonthNumber(MonthOf(b.d.time)) - MonthNumber(MonthOf(a.d.time)));
    MonthOfIs(a.d.time);
    MonthOfIs(b.d.time);
    assert wholeMonthDiff == MonthsBetween(a.d.time, b.d.time);
    Anchors(a.d.time, wholeMonthDiff);
    AddedParts(a.d.time, 0, 0, wholeMonthDiff, 1);
    AddedParts(a.d.time, 0, 0, wholeMonthDiff - 1, 1);
    AddedParts(a.d.time, 0, 0, wholeMonthDiff + 1, 1);
    var anchor := a.Clone();
    anchor.Add(Span(0, 0, wholeMonthDiff), 1);
    var anchor2 := a.Clone();
    var adjust;
    if b.d.time - anchor.d.time < 0 {
      anchor2.Add(Span(0, 0, wholeMonthDiff - 1), 1);
      adjust := (b.d.time - anchor.d.time) as real / (anchor.d.time - anchor2.d.time) as real;
    } else {
      anchor2.Add(Span(0, 0, wholeMonthDiff + 1), 1);
      adjust := (b.d.time - anchor.d.time) as real / (anchor2.d.time - anchor.d.time) as real;
    }
    r := -(wholeMonthDiff as real + adjust);
  }
}
