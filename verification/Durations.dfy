/** Durations of moment: bubble spreads milliseconds, days and months over calendar-sized fields.
    JavaScript divides exactly and absFloor truncates towards zero, so every step is modelled on
    integers by truncated division; floating-point rounding is not part of this model. */
module Durations {
  import opened Arithmetic

  datatype Fields = Fields(milliseconds: int, seconds: int, minutes: int, hours: int, days: int, months: int, years: int)

  class Duration {
    var milliseconds: int
    var days: int
    var months: int
    var data: Fields

    constructor (milliseconds: int, days: int, months: int)
      ensures this.milliseconds == milliseconds && this.days == days && this.months == months
      ensures data == Bubbled(milliseconds, days, months)
    {
      this.milliseconds := milliseconds;
      this.days := days;
      this.months := months;
      data := Fields(0, 0, 0, 0, 0, 0, 0);
      new;
      Bubble();
    }

    method Bubble()
      modifies this`data
      ensures data == Bubbled(milliseconds, days, months)
    {
      hide Trunc;
      hide Rem;
      var days, months := this.days, this.months;
      data := data.(milliseconds := Rem(milliseconds, 1000));
      var seconds := Trunc(milliseconds, 1000);
      data := data.(seconds := Rem(seconds, 60));
      var minutes := Trunc(seconds, 60);
      data := data.(minutes := Rem(minutes, 60));
      var hours := Trunc(minutes, 60);
      data := data.(hours := Rem(hours, 24));
      days := days + Trunc(hours, 24);
      // Years are taken out of the days first,
      var years := DaysToYears(days);
      days := days - YearsToDays(years);
      // what is left makes months of 30 days,
      months := months + Trunc(days, 30);
      days := Rem(days, 30);
      // and twelve of them another year.
      years := years + Trunc(months, 12);
      months := Rem(months, 12);
      data := data.(days := days, months := months, years := years);
    }
  }

  // absFloor of the conversions; 400 years have 146097 days.
  function DaysToYears(days: int): int { Trunc(days * 400, 146097) }

  function YearsToDays(years: int): int { Trunc(years * 146097, 400) }

  // The whole days that milliseconds carry, and the total that bubbles into months and years.
  function DaysCarried(milliseconds: int): int {
    Trunc(Trunc(Trunc(Trunc(milliseconds, 1000), 60), 60), 24)
  }

  function DaysLeft(total: int): int { total - YearsToDays(DaysToYears(total)) }

  function Bubbled(milliseconds: int, days: int, months: int): Fields {
    var s := Trunc(milliseconds, 1000);
    var m := Trunc(s, 60);
    var h := Trunc(m, 60);
    var total := days + DaysCarried(milliseconds);
    var left := DaysLeft(total);
    var months' := months + Trunc(left, 30);
    Fields(Rem(milliseconds, 1000), Rem(s, 60), Rem(m, 60), Rem(h, 24), Rem(left, 30), Rem(months', 12),
      DaysToYears(total) + Trunc(months', 12))
  }

  // A part and its sign: never on the other side of zero from the whole, and below its unit.
  predicate Within(part: int, whole: int, unit: int) {
    -unit < part < unit && (whole >= 0 ==> part >= 0) && (whole <= 0 ==> part <= 0)
  }

  lemma Split(a: int, b: int)
    requires b > 0
    ensures a == b * Trunc(a, b) + Rem(a, b) && Within(Rem(a, b), a, b)
    ensures (a >= 0 ==> Trunc(a, b) >= 0) && (a <= 0 ==> Trunc(a, b) <= 0)
    ensures Trunc(-a, b) == -Trunc(a, b) && Rem(-a, b) == -Rem(a, b)
  {
  }

  // The clock fields are within their units and, with the days carried, are the milliseconds.
  lemma ClockConserved(milliseconds: int, days: int, months: int)
    ensures var f := Bubbled(milliseconds, days, months);
      milliseconds == f.milliseconds + 1000 * (f.seconds + 60 * (f.minutes + 60 * (f.hours + 24 * DaysCarried(milliseconds)))) &&
      Within(f.milliseconds, milliseconds, 1000) && Within(f.seconds, milliseconds, 60) &&
      Within(f.minutes, milliseconds, 60) && Within(f.hours, milliseconds, 24)
  {
    hide Trunc;
    hide Rem;
    var s := Trunc(milliseconds, 1000);
    var m := Trunc(s, 60);
    Split(milliseconds, 1000);
    Split(s, 60);
    Split(m, 60);
    Split(Trunc(m, 60), 24);
  }

  // The date fields are within their units, and no day or month is lost: with y years taken from
  // the days, days are 30-day months plus the day field, and months are 12-month years plus the
  // month field.
  lemma DateConserved(milliseconds: int, days: int, months: int)
    ensures var f := Bubbled(milliseconds, days, months);
      var total := days + DaysCarried(milliseconds);
      var y := DaysToYears(total);
      total == YearsToDays(y) + 30 * (f.months + 12 * (f.years - y) - months) + f.days &&
      -30 < f.days < 30 && -12 < f.months < 12
  {
    hide Trunc;
    hide Rem;
    hide DaysCarried;
    var left := DaysLeft(days + DaysCarried(milliseconds));
    Split(left, 30);
    Split(months + Trunc(left, 30), 12);
  }

  // Taking the years out of a number of days leaves less than a leap year and a day of the same
  // sign, and nothing at the end of a 400-year cycle.
  lemma YearsTakenOut(total: int)
    ensures Within(DaysLeft(total), total, 367)
    ensures total % 146097 == 0 ==> DaysLeft(total) == 0
    ensures DaysLeft(-total) == -DaysLeft(total)
  {
    hide Trunc;
    hide Rem;
    var y := DaysToYears(total);
    Split(total * 400, 146097);
    Split(y * 146097, 400);
    assert -total * 400 == -(total * 400) && -y * 146097 == -(y * 146097);
    if total % 146097 == 0 {
      WholeCycles(total / 146097);
    }
  }

  lemma WholeCycles(k: int)
    ensures DaysToYears(146097 * k) == 400 * k && YearsToDays(400 * k) == 146097 * k
  {
    var n := if k < 0 then -k else k;
    DivUnique(146097 * n * 400, 146097, 400 * n, 0);
    DivUnique(400 * n * 146097, 400, 146097 * n, 0);
    assert 146097 * k * 400 == if k < 0 then -(146097 * n * 400) else 146097 * n * 400;
    assert 400 * k * 146097 == if k < 0 then -(400 * n * 146097) else 400 * n * 146097;
  }

  function Negated(f: Fields): Fields {
    Fields(-f.milliseconds, -f.seconds, -f.minutes, -f.hours, -f.days, -f.months, -f.years)
  }

  // A duration and its opposite bubble alike.
  lemma BubbleIsOdd(milliseconds: int, days: int, months: int)
    ensures Bubbled(-milliseconds, -days, -months) == Negated(Bubbled(milliseconds, days, months))
  {
    hide Trunc;
    hide Rem;
    hide DaysToYears;
    hide DaysLeft;
    var s := Trunc(milliseconds, 1000);
    var m := Trunc(s, 60);
    var h := Trunc(m, 60);
    Split(milliseconds, 1000);
    Split(s, 60);
    Split(m, 60);
    Split(h, 24);
    var total := days + Trunc(h, 24);
    assert -days + -Trunc(h, 24) == -total;
    YearsTakenOut(total);
    YearsOdd(total);
    var left := DaysLeft(total);
    Split(left, 30);
    var months' := months + Trunc(left, 30);
    assert -months + -Trunc(left, 30) == -months';
    Split(months', 12);
  }

  lemma YearsOdd(total: int)
    ensures DaysToYears(-total) == -DaysToYears(total)
  {
    hide Trunc;
    assert -total * 400 == -(total * 400);
    Split(total * 400, 146097);
  }

  // There is only one way to write milliseconds in clock fields of its sign within their units.
  lemma ClockUnique(milliseconds: int, ms: int, s: int, m: int, h: int, d: int)
    requires milliseconds == ms + 1000 * (s + 60 * (m + 60 * (h + 24 * d)))
    requires Within(ms, milliseconds, 1000) && Within(s, milliseconds, 60) && Within(m, milliseconds, 60) && Within(h, milliseconds, 24)
    ensures var f := Bubbled(milliseconds, 0, 0);
      (ms, s, m, h, d) == (f.milliseconds, f.seconds, f.minutes, f.hours, DaysCarried(milliseconds))
  {
    hide Trunc;
    hide Rem;
    hide DaysLeft;
    hide DaysToYears;
    SplitUnique(milliseconds, 1000, s + 60 * (m + 60 * (h + 24 * d)), ms);
    SplitUnique(s + 60 * (m + 60 * (h + 24 * d)), 60, m + 60 * (h + 24 * d), s);
    SplitUnique(m + 60 * (h + 24 * d), 60, h + 24 * d, m);
    SplitUnique(h + 24 * d, 24, d, h);
  }

  lemma SplitUnique(a: int, b: int, q: int, r: int)
    requires b > 0 && a == r + b * q && -b < r < b && (a > 0 ==> r >= 0) && (a < 0 ==> r <= 0) && (a == 0 ==> r == 0)
    ensures Trunc(a, b) == q && Rem(a, b) == r
    ensures (a > 0 ==> q >= 0) && (a < 0 ==> q <= 0) && (a == 0 ==> q == 0)
  {
    hide Rem;
    hide Trunc;
    TruncUnique(a, b, q, r);
    Split(a, b);
  }

  lemma TruncUnique(a: int, b: int, q: int, r: int)
    requires b > 0 && a == r + b * q && -b < r < b && (a > 0 ==> r >= 0) && (a < 0 ==> r <= 0) && (a == 0 ==> r == 0)
    ensures Trunc(a, b) == q
  {
    if a < 0 {
      assert -a == b * -q + -r;
      DivUnique(-a, b, -q, -r);
    } else {
      DivUnique(a, b, q, r);
    }
  }

  // The days of some years are the whole days of their mean length, and the years of some days the
  // greatest number of years whose mean length they reach.
  lemma YearsAreMeans(years: int, days: int)
    requires 0 <= years && 0 <= days
    ensures 400 * YearsToDays(years) <= 146097 * years < 400 * YearsToDays(years) + 400
    ensures 146097 * DaysToYears(days) <= 400 * days < 146097 * (DaysToYears(days) + 1)
  {
  }
}
