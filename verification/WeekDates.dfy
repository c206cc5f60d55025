/** Week numbers of moment. A locale's week begins on weekday dow; the first week of a year is the
    one holding the year's first day of weekday doy, where doy runs from dow to dow + 6 (ISO 8601
    weeks are dow 1, doy 4). weekOfYear and dayOfYearFromWeeks are written independently of each
    other; they are compared here on day numbers. */
module WeekDates {
  import opened Arithmetic
  import opened Gregorian

  datatype WeekDate = WeekDate(year: int, week: int)
  datatype OrdinalDate = OrdinalDate(year: int, dayOfYear: int)

  function DayOfYear(day: int): int { day - DayFromYear(Year(day)) + 1 }

  // The day an ordinal date denotes, even if dayOfYear runs past the end of its year.
  function OrdinalDay(o: OrdinalDate): int { DayFromYear(o.year) + o.dayOfYear - 1 }

  predicate WeekRule(dow: int, doy: int) { 0 <= dow <= 6 && dow <= doy <= dow + 6 }

  // The distance to the day of weekday doy in the same week.
  function DaysToDayOfWeek(weekDay: int, dow: int, doy: int): int {
    var end := doy - dow;
    var k := doy - weekDay;
    var k' := if k > end then k - 7 else k;
    if k' < end - 7 then k' + 7 else k'
  }

  function WeekOfYear(day: int, dow: int, doy: int): WeekDate {
    var adjusted := day + DaysToDayOfWeek(WeekDay(day), dow, doy);
    // ceil(n / 7) for a whole number n
    WeekDate(Year(adjusted), (DayOfYear(adjusted) + 6) / 7)
  }

  // The weekday of January 1, Sunday being 7.
  function NewYearDay(year: int): (d: int)
    ensures 1 <= d <= 7
  {
    var d := WeekDay(DayFromYear(year));
    if d == 0 then 7 else d
  }

  function DaysToAdd(d: int, dow: int, doy: int): int {
    dow - d + (if d > doy then 7 else 0) - (if d < dow then 7 else 0)
  }

  function DayOfYearFromWeeks(year: int, week: int, weekday: int, doy: int, dow: int): OrdinalDate {
    var dayOfYear := 7 * (week - 1) + (weekday - dow) + DaysToAdd(NewYearDay(year), dow, doy) + 1;
    if dayOfYear > 0 then OrdinalDate(year, dayOfYear)
    else OrdinalDate(year - 1, DaysInYear(year - 1) + dayOfYear)
  }

  // weeksInYear asks for the week of the day 31 + dow - doy of December.
  function WeeksInYear(year: int, dow: int, doy: int): int {
    WeekOfYear(MakeDay(year, 11, 31 + dow - doy), dow, doy).week
  }

  // The position of a day in its week.
  function WeekPosition(day: int, dow: int): (p: int)
    ensures 0 <= p < 7
  {
    (WeekDay(day) - dow) % 7
  }

  // Days from January 1 to the year's first day of weekday doy.
  function FirstAnchor(year: int, doy: int): (r: int)
    ensures 0 <= r < 7
  {
    (doy - NewYearDay(year)) % 7
  }

  // The weekday of January 1 for which dayOfYearFromWeeks misses the start of the first week.
  predicate Misplaced(year: int, dow: int, doy: int) {
    NewYearDay(year) < dow && doy < NewYearDay(year) + 7
  }

  lemma Mod7(a: int, k: int)
    ensures (a + 7 * k) % 7 == a % 7
  {
    ModShift(a, 7, -k);
  }

  lemma SameWeek(day: int, dow: int, doy: int)
    requires WeekRule(dow, doy)
    ensures DaysToDayOfWeek(WeekDay(day), dow, doy) == doy - dow - WeekPosition(day, dow)
  {
    var w := WeekDay(day);
    if w >= dow { DivUnique(w - dow, 7, 0, w - dow); } else { DivUnique(w - dow, 7, -1, w - dow + 7); }
  }

  lemma FirstAnchorCases(year: int, dow: int, doy: int)
    requires WeekRule(dow, doy)
    ensures DaysToAdd(NewYearDay(year), dow, doy) == FirstAnchor(year, doy) - (doy - dow) <==> !Misplaced(year, dow, doy)
  {
    hide NewYearDay;
    var k := doy - NewYearDay(year);
    if k < 0 { DivUnique(k, 7, -1, k + 7); } else if k < 7 { DivUnique(k, 7, 0, k); } else { DivUnique(k, 7, 1, k - 7); }
  }

  // Counted from January 1, the days of weekday doy are those congruent to the first of them.
  lemma AnchorCongruence(day: int, year: int, dow: int, doy: int)
    requires WeekRule(dow, doy)
    ensures (day - WeekPosition(day, dow) + (doy - dow) - DayFromYear(year)) % 7 == FirstAnchor(year, doy)
  {
    hide DayFromYear;
    var j := DayFromYear(year);
    var q, q', q'' := (day + 4) / 7, (WeekDay(day) - dow) / 7, (j + 4) / 7;
    var d := NewYearDay(year);
    assert day + 4 == 7 * q + WeekDay(day);
    assert WeekDay(day) - dow == 7 * q' + WeekPosition(day, dow);
    assert j + 4 == 7 * q'' + d || j + 4 == 7 * q'' + d - 7;
    assert day - WeekPosition(day, dow) + (doy - dow) - j == doy - d + 7 * (q + q' - q'') ||
           day - WeekPosition(day, dow) + (doy - dow) - j == doy - d + 7 * (q + q' - q'' + 1);
    Mod7(doy - d, q + q' - q'');
    Mod7(doy - d, q + q' - q'' + 1);
  }

  lemma OrdinalDayIs(year: int, week: int, weekday: int, doy: int, dow: int)
    ensures OrdinalDay(DayOfYearFromWeeks(year, week, weekday, doy, dow)) ==
      DayFromYear(year) + 7 * (week - 1) + (weekday - dow) + DaysToAdd(NewYearDay(year), dow, doy)
    ensures 1 <= week && dow <= weekday && WeekRule(dow, doy) ==>
      1 <= DayOfYearFromWeeks(year, week, weekday, doy, dow).dayOfYear
  {
    hide DayFromYear;
    hide NewYearDay;
    hide LeapYear;
    YearStep(year - 1);
  }

  // The week of a day, written with its first day and the anchor of its year.
  lemma WeekIs(day: int, dow: int, doy: int)
    requires WeekRule(dow, doy)
    ensures var w := WeekOfYear(day, dow, doy);
      w.week >= 1 &&
      day - WeekPosition(day, dow) + (doy - dow) == DayFromYear(w.year) + 7 * (w.week - 1) + FirstAnchor(w.year, doy)
  {
    hide DayFromYear;
    hide Year;
    hide WeekDay;
    hide DaysToDayOfWeek;
    hide FirstAnchor;
    SameWeek(day, dow, doy);
    var a := day - WeekPosition(day, dow) + (doy - dow);
    var year := Year(a);
    YearBounds(a);
    AnchorCongruence(day, year, dow, doy);
    var n := a - DayFromYear(year);
    DivUnique(n + 1 + 6, 7, n / 7 + 1, n % 7);
  }

  lemma YearBounds(day: int)
    ensures DayFromYear(Year(day)) <= day < DayFromYear(Year(day) + 1)
  {
    hide MonthFromDay;
    hide DayFromYear;
    YearUnique(day, YearFromDay(day));
  }

  // Converting a day to its week date and back denotes the day again, across both ends of the
  // year, exactly when its year is not misplaced.
  lemma WeekDateRoundTrip(day: int, dow: int, doy: int)
    requires WeekRule(dow, doy)
    ensures var w := WeekOfYear(day, dow, doy);
      OrdinalDay(DayOfYearFromWeeks(w.year, w.week, dow + WeekPosition(day, dow), doy, dow)) == day <==>
      !Misplaced(w.year, dow, doy)
  {
    hide DayFromYear;
    hide WeekOfYear;
    hide DaysToAdd;
    hide WeekPosition;
    hide FirstAnchor;
    hide Misplaced;
    var w := WeekOfYear(day, dow, doy);
    WeekIs(day, dow, doy);
    FirstAnchorCases(w.year, dow, doy);
    OrdinalDayIs(w.year, w.week, dow + WeekPosition(day, dow), doy, dow);
  }

  predicate RoundTrips(day: int, dow: int, doy: int) {
    var w := WeekOfYear(day, dow, doy);
    OrdinalDay(DayOfYearFromWeeks(w.year, w.week, dow + WeekPosition(day, dow), doy, dow)) == day
  }

  // A year whose January 1 is on weekday d.
  function YearStartingOn(d: int): (y: int)
    requires 1 <= d <= 5
    ensures NewYearDay(y) == d
  {
    if d == 1 then 2018 else if d == 2 then 2019 else if d == 3 then 2014 else if d == 4 then 2015 else 2016
  }

  // A rule that always round-trips: weeks from Sunday or Monday, or first weeks around January 1.
  lemma AlwaysRoundTrips(dow: int, doy: int)
    requires WeekRule(dow, doy)
    ensures (forall day :: RoundTrips(day, dow, doy)) <==> dow <= 1 || doy == dow + 6
  {
    hide WeekOfYear;
    hide WeekPosition;
    hide OrdinalDay;
    hide DayOfYearFromWeeks;
    hide NewYearDay;
    if dow <= 1 || doy == dow + 6 {
      forall day ensures RoundTrips(day, dow, doy) {
        WeekDateRoundTrip(day, dow, doy);
      }
    } else {
      var day := FailingDay(dow, doy);
      WeekDateRoundTrip(day, dow, doy);
      assert !RoundTrips(day, dow, doy);
    }
  }

  // A day of the middle of a misplaced year.
  lemma FailingDay(dow: int, doy: int) returns (day: int)
    requires WeekRule(dow, doy) && 1 < dow && doy < dow + 6
    ensures Misplaced(WeekOfYear(day, dow, doy).year, dow, doy)
  {
    hide DaysToDayOfWeek;
    hide DayFromYear;
    hide NewYearDay;
    hide WeekDay;
    hide Year;
    hide WeekPosition;
    var y := YearStartingOn(dow - 1);
    day := DayFromYear(y) + 180;
    SameWeek(day, dow, doy);
    YearStep(y);
    YearUnique(day + (doy - dow - WeekPosition(day, dow)), y);
  }

  // Every year has 52 or 53 weeks, and they are the ones that start within it.
  lemma WeekCount(year: int, dow: int, doy: int)
    requires WeekRule(dow, doy)
    ensures var n := WeeksInYear(year, dow, doy);
      52 <= n <= 53 && 7 * (n - 1) + FirstAnchor(year, doy) < DaysInYear(year) <= 7 * n + FirstAnchor(year, doy)
  {
    hide DayFromYear;
    hide MonthStart;
    hide WeekOfYear;
    hide WeekPosition;
    hide FirstAnchor;
    hide Year;
    var p := doy - dow;
    var day := MakeDay(year, 11, 31 + dow - doy);
    MonthStartInYear(year, 11);
    YearStep(year);
    assert day == DayFromYear(year) + DaysInYear(year) - 1 - p;
    WeekIs(day, dow, doy);
    WeekYearIs(day, dow, doy);
    YearUnique(day - WeekPosition(day, dow) + p, year);
    var n := WeekOfYear(day, dow, doy).week;
    assert DaysInYear(year) - 1 - WeekPosition(day, dow) == 7 * (n - 1) + FirstAnchor(year, doy);
  }

  lemma WeekYearIs(day: int, dow: int, doy: int)
    requires WeekRule(dow, doy)
    ensures WeekOfYear(day, dow, doy).year == Year(day - WeekPosition(day, dow) + (doy - dow))
  {
    hide Year;
    hide DaysToDayOfWeek;
    hide DayFromYear;
    SameWeek(day, dow, doy);
  }

  // The other direction: a week number the year has, with a position in the week, denotes a day
  // with that week number and that position, exactly when the year is not misplaced.
  lemma OrdinalRoundTrip(year: int, week: int, position: int, dow: int, doy: int)
    requires WeekRule(dow, doy)
    requires 1 <= week <= WeeksInYear(year, dow, doy) && 0 <= position < 7
    ensures var day := OrdinalDay(DayOfYearFromWeeks(year, week, dow + position, doy, dow));
      (WeekOfYear(day, dow, doy) == WeekDate(year, week) && WeekPosition(day, dow) == position) <==> !Misplaced(year, dow, doy)
  {
    hide DayFromYear;
    hide WeekOfYear;
    hide DaysToAdd;
    hide NewYearDay;
    hide FirstAnchor;
    hide Misplaced;
    hide Year;
    hide WeeksInYear;
    hide WeekPosition;
    hide WeekDay;
    var day := OrdinalDay(DayOfYearFromWeeks(year, week, dow + position, doy, dow));
    OrdinalDayIs(year, week, dow + position, doy, dow);
    FirstAnchorCases(year, dow, doy);
    WeekIs(day, dow, doy);
    if !Misplaced(year, dow, doy) {
      WeekCount(year, dow, doy);
      PositionIs(day, year, week, position, dow, doy);
      WeekYearIs(day, dow, doy);
      YearStep(year);
      YearUnique(day - position + (doy - dow), year);
    }
  }

  lemma PositionIs(day: int, year: int, week: int, position: int, dow: int, doy: int)
    requires WeekRule(dow, doy) && 0 <= position < 7
    requires day - position + (doy - dow) == DayFromYear(year) + 7 * (week - 1) + FirstAnchor(year, doy)
    ensures WeekPosition(day, dow) == position
  {
    hide DayFromYear;
    hide FirstAnchor;
    hide WeekPosition;
    AnchorCongruence(day, year, dow, doy);
    var q := WeekPosition(day, dow);
    var r := FirstAnchor(year, doy);
    var a := day - q + (doy - dow) - DayFromYear(year);
    assert a == 7 * (week - 1) + r + (position - q);
    var m := a / 7;
    assert 7 * m + r == 7 * (week - 1) + r + (position - q);
  }

  // An ordinal date is written in the year asked for, unless the day lies before it; then in the one before.
  lemma OrdinalYear(year: int, week: int, weekday: int, doy: int, dow: int)
    ensures var o := DayOfYearFromWeeks(year, week, weekday, doy, dow);
      o.year == (if OrdinalDay(o) < DayFromYear(year) then year - 1 else year) &&
      o.dayOfYear == OrdinalDay(o) - DayFromYear(o.year) + 1
  {
    hide DayFromYear;
    hide NewYearDay;
    hide LeapYear;
    YearStep(year - 1);
  }

  // The anchor is the first day of its weekday in the year.
  lemma AnchorWeekday(year: int, doy: int)
    ensures (WeekDay(DayFromYear(year) + FirstAnchor(year, doy)) - doy) % 7 == 0
  {
    hide DayFromYear;
    var a, r := DayFromYear(year), FirstAnchor(year, doy);
    var q, p, s := (a + 4) / 7, (doy - NewYearDay(year)) / 7, (a + r + 4) / 7;
    assert a + 4 == 7 * q + WeekDay(a) && doy - NewYearDay(year) == 7 * p + r && a + r + 4 == 7 * s + WeekDay(a + r);
    assert WeekDay(a + r) - doy == 7 * (q - p - s) || WeekDay(a + r) - doy == 7 * (q - p - s - 1);
    MultipleOf(q - p - s, 7);
    MultipleOf(q - p - s - 1, 7);
  }
}
