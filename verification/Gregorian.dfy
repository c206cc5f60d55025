/** The proleptic Gregorian calendar as ECMA-262 5.1 defines it for Date values in UTC
    (sections 15.9.1.2 to 15.9.1.12). A day is an integer, 0 being 1970-01-01. A month is an
    integer too, counted absolutely: month m (0 to 11) of year y is 12 * y + m, so that month
    overflow in either direction is plain addition. */
module Gregorian {
  import opened Arithmetic

  predicate LeapYear(y: int) {
    (y % 4 == 0 && y % 100 != 0) || y % 400 == 0
  }

  function DaysInYear(y: int): int {
    if LeapYear(y) then 366 else 365
  }

  // Section 15.9.1.3. Dafny's division floors when the divisor is positive, as DayFromYear needs.
  function DayFromYear(y: int): int {
    365 * (y - 1970) + (y - 1969) / 4 - (y - 1901) / 100 + (y - 1601) / 400
  }

  // Days of a year that precede its month m; m == 12 gives the whole year.
  function DaysBefore(m: int, leap: bool): int
    requires 0 <= m <= 12
  {
    var l := if leap then 1 else 0;
    if m == 0 then 0
    else if m == 1 then 31
    else if m == 2 then 59 + l
    else if m == 3 then 90 + l
    else if m == 4 then 120 + l
    else if m == 5 then 151 + l
    else if m == 6 then 181 + l
    else if m == 7 then 212 + l
    else if m == 8 then 243 + l
    else if m == 9 then 273 + l
    else if m == 10 then 304 + l
    else if m == 11 then 334 + l
    else 365 + l
  }

  // The month of the year of an absolute month, from 0 to 11.
  function MonthNumber(n: int): (m: int)
    ensures 0 <= m < 12
  {
    n % 12
  }

  function MonthStart(n: int): int {
    DayFromYear(n / 12) + DaysBefore(n % 12, LeapYear(n / 12))
  }

  function MonthLength(n: int): int {
    MonthStart(n + 1) - MonthStart(n)
  }

  // Section 15.9.1.12, restricted to finite integers.
  function MakeDay(year: int, month: int, date: int): int {
    MonthStart(12 * year + month) + date - 1
  }

  function WeekDay(day: int): int {
    (day + 4) % 7
  }

  lemma YearStep(y: int)
    ensures DayFromYear(y + 1) == DayFromYear(y) + DaysInYear(y)
  {
    DivStep(y - 1969, 4);
    DivStep(y - 1901, 100);
    DivStep(y - 1601, 400);
    ModShift(y, 4, 492);
    ModShift(y, 100, 19);
    ModShift(y, 400, 4);
    CenturyDivides(y);
  }

  lemma CenturyDivides(y: int)
    ensures y % 400 == 0 ==> y % 100 == 0
    ensures y % 100 == 0 ==> y % 4 == 0
  {
    if y % 400 == 0 { DivUnique(y, 100, 4 * (y / 400), 0); }
    if y % 100 == 0 { DivUnique(y, 4, 25 * (y / 100), 0); }
  }

  lemma MonthStep(n: int)
    ensures MonthLength(n) ==
      (if n % 12 == 1 then (if LeapYear(n / 12) then 29 else 28)
       else if n % 12 == 3 || n % 12 == 5 || n % 12 == 8 || n % 12 == 10 then 30 else 31)
    ensures 28 <= MonthLength(n) <= 31
  {
    DivStep(n, 12);
    YearStep(n / 12);
  }

  lemma {:induction false} MonthStartIncreases(a: int, b: int)
    requires a < b
    ensures MonthStart(a) + 28 * (b - a) <= MonthStart(b)
    ensures MonthStart(b) <= MonthStart(a) + 31 * (b - a)
    decreases b - a
  {
    MonthStep(b - 1);
    hide MonthStart;
    if a < b - 1 {
      MonthStartIncreases(a, b - 1);
    }
  }

  // The first estimate of a day's year; DayFromYear is never two days away from its mean rate.
  function YearFromDay(day: int): (y: int)
    ensures DayFromYear(y) <= day < DayFromYear(y + 1)
  {
    var e := 1970 + day * 400 / 146097;
    assert DayFromYear(e - 1) <= day < DayFromYear(e + 2) by { YearRate(e - 1); YearRate(e + 2); }
    if day < DayFromYear(e) then e - 1 else if DayFromYear(e + 1) <= day then e + 1 else e
  }

  lemma YearRate(y: int)
    ensures 146097 * (y - 1970) - 800 < 400 * DayFromYear(y) < 146097 * (y - 1970) + 800
  {
    var a, b, c := (y - 1969) / 4, (y - 1901) / 100, (y - 1601) / 400;
    assert 4 * a <= y - 1969 < 4 * a + 4;
    assert 100 * b <= y - 1901 < 100 * b + 100;
    assert 400 * c <= y - 1601 < 400 * c + 400;
  }

  function MonthInYear(dayInYear: int, leap: bool): (m: int)
    requires 0 <= dayInYear < DaysBefore(12, leap)
    ensures 0 <= m < 12 && DaysBefore(m, leap) <= dayInYear < DaysBefore(m + 1, leap)
  {
    if dayInYear < DaysBefore(1, leap) then 0
    else if dayInYear < DaysBefore(2, leap) then 1
    else if dayInYear < DaysBefore(3, leap) then 2
    else if dayInYear < DaysBefore(4, leap) then 3
    else if dayInYear < DaysBefore(5, leap) then 4
    else if dayInYear < DaysBefore(6, leap) then 5
    else if dayInYear < DaysBefore(7, leap) then 6
    else if dayInYear < DaysBefore(8, leap) then 7
    else if dayInYear < DaysBefore(9, leap) then 8
    else if dayInYear < DaysBefore(10, leap) then 9
    else if dayInYear < DaysBefore(11, leap) then 10
    else 11
  }

  lemma MonthStartInYear(y: int, m: int)
    requires 0 <= m <= 12
    ensures MonthStart(12 * y + m) == DayFromYear(y) + DaysBefore(m, LeapYear(y))
  {
    if m < 12 {
      DivUnique(12 * y + m, 12, y, m);
    } else {
      DivUnique(12 * y + m, 12, y + 1, 0);
      YearStep(y);
    }
  }

  // The absolute month a day lies in.
  function MonthFromDay(day: int): (n: int)
    ensures MonthStart(n) <= day < MonthStart(n + 1)
  {
    hide MonthStart;
    hide DayFromYear;
    var y := YearFromDay(day);
    YearStep(y);
    var m := MonthInYear(day - DayFromYear(y), LeapYear(y));
    MonthStartInYear(y, m);
    MonthStartInYear(y, m + 1);
    12 * y + m
  }

  // getUTCFullYear, getUTCMonth and getUTCDate of a day.
  function Year(day: int): int { MonthFromDay(day) / 12 }

  function Month(day: int): (m: int)
    ensures 0 <= m < 12
  {
    MonthFromDay(day) % 12
  }

  function Date(day: int): (d: int)
    ensures 1 <= d <= 31
  {
    MonthStep(MonthFromDay(day));
    day - MonthStart(MonthFromDay(day)) + 1
  }

  // A day lies in exactly one month.
  lemma MonthUnique(day: int, n: int)
    requires MonthStart(n) <= day < MonthStart(n + 1)
    ensures MonthFromDay(day) == n
  {
    hide MonthStart;
    hide MonthFromDay;
    var k := MonthFromDay(day);
    if k < n {
      if k + 1 < n { MonthStartIncreases(k + 1, n); }
    } else if n < k {
      if n + 1 < k { MonthStartIncreases(n + 1, k); }
    }
  }

  // MakeDay and the three getters are inverse to each other.
  lemma CivilRoundTrip(day: int)
    ensures MakeDay(Year(day), Month(day), Date(day)) == day
  {
    hide MonthStart;
    hide MonthFromDay;
    assert 12 * (MonthFromDay(day) / 12) + MonthFromDay(day) % 12 == MonthFromDay(day);
  }

  lemma CivilFields(y: int, m: int, d: int)
    requires 0 <= m < 12 && 1 <= d <= MonthLength(12 * y + m)
    ensures Year(MakeDay(y, m, d)) == y && Month(MakeDay(y, m, d)) == m && Date(MakeDay(y, m, d)) == d
  {
    hide MonthStart;
    MonthUnique(MakeDay(y, m, d), 12 * y + m);
    DivUnique(12 * y + m, 12, y, m);
  }

  lemma YearUnique(day: int, y: int)
    requires DayFromYear(y) <= day < DayFromYear(y + 1)
    ensures Year(day) == y
  {
    YearStep(y);
    hide MonthStart;
    hide DayFromYear;
    hide MonthFromDay;
    var m := MonthInYear(day - DayFromYear(y), LeapYear(y));
    MonthStartInYear(y, m);
    MonthStartInYear(y, m + 1);
    MonthUnique(day, 12 * y + m);
    DivUnique(12 * y + m, 12, y, m);
  }

  // Day 0 is Thursday, January 1 of the year 1970.
  lemma Epoch()
    ensures WeekDay(0) == 4 && Year(0) == 1970 && Month(0) == 0 && Date(0) == 1
  {
    hide MonthStart;
    hide MonthFromDay;
    EpochMonth();
    MonthUnique(0, 23640);
  }

  lemma EpochMonth()
    ensures MonthStart(23640) == 0 && MonthStart(23641) == 31
  {
    hide DayFromYear;
    hide LeapYear;
    assert DayFromYear(1970) == 0 by { EpochYear(); }
  }

  lemma EpochYear()
    ensures DayFromYear(1970) == 0
  {
  }
}
