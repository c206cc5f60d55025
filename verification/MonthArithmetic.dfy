/** Month addition and whole-month differences of moment, on instants. moment clamps the day to
    the length of the target month, but reads that length through Date.UTC, which takes the years
    0 to 99 for 1900 to 1999: the results below say exactly when that shows. */
module MonthArithmetic {
  import opened Arithmetic
  import opened Gregorian
  import opened Dates

  function DaysInMonth(year: int, month: int): int {
    DateOf(DateUTC(year, month + 1, 0))
  }

  function SetMonth(t: int, value: int): int {
    At(12 * YearOf(t) + value, Min(DateOf(t), DaysInMonth(YearOf(t), value)), TimeInDay(t))
  }

  // Adding a duration of k months; a zero part of a duration is skipped.
  function AddMonths(t: int, k: int): int {
    if k == 0 then t else SetMonth(t, MonthNumber(MonthOf(t)) + k)
  }

  // The Februaries whose length changes when 1900 years are added: one way or the other.
  predicate LosesLeapDay(n: int) { n % 12 == 1 && n / 12 % 400 == 0 }

  predicate GainsLeapDay(n: int) { n % 12 == 1 && n / 12 % 400 == 100 }

  predicate Misclamped(t: int, n: int) {
    TwoDigitYear(YearOf(t)) && DateOf(t) > 28 && (LosesLeapDay(n) || GainsLeapDay(n))
  }

  // Misclamped towards 29 days: the date overflows to the first of March.
  predicate Overflows(t: int, n: int) {
    TwoDigitYear(YearOf(t)) && DateOf(t) > 28 && GainsLeapDay(n)
  }

  lemma LastOfMonth(n: int)
    ensures DateOf(At(n + 1, 0, 0)) == MonthLength(n)
  {
    hide MonthStart;
    hide MonthFromDay;
    MonthStep(n);
    AtOverflow(n, MonthLength(n), 0);
    AtParts(n, MonthLength(n), 0);
  }

  lemma DaysInMonthIsLength(year: int, month: int)
    ensures DaysInMonth(year, month) == MonthLength(12 * (if TwoDigitYear(year) then 1900 + year else year) + month)
  {
    hide At;
    hide DateOf;
    hide MonthLength;
    LastOfMonth(12 * (if TwoDigitYear(year) then 1900 + year else year) + month);
  }

  // 1900 years on, only the centuries 0 and 100 of a 400-year cycle change their leap day.
  lemma Shift1900(n: int)
    ensures MonthLength(n + 22800) == MonthLength(n) <==> !LosesLeapDay(n) && !GainsLeapDay(n)
    ensures LosesLeapDay(n) ==> MonthLength(n) == 29 && MonthLength(n + 22800) == 28
    ensures GainsLeapDay(n) ==> MonthLength(n) == 28 && MonthLength(n + 22800) == 29
  {
    hide MonthLength;
    MonthStep(n);
    MonthStep(n + 22800);
    DivUnique(n + 22800, 12, n / 12 + 1900, n % 12);
    LeapShift(n / 12);
  }

  lemma LeapShift(y: int)
    ensures LeapYear(y + 1900) == LeapYear(y) <==> y % 400 != 0 && y % 400 != 100
    ensures y % 400 == 0 ==> LeapYear(y) && !LeapYear(y + 1900)
    ensures y % 400 == 100 ==> !LeapYear(y) && LeapYear(y + 1900)
  {
    ModShift(y, 4, -475);
    ModShift(y, 100, -19);
    MultipleOf400(y);
    MultipleOf400(y + 1900);
    ModShift(y + 300, 400, -4);
    ModShift(y - 100, 400, -1);
  }

  lemma MultipleOf400(y: int)
    ensures y % 400 == 0 ==> y % 100 == 0 && y % 4 == 0
    ensures y % 400 == 100 <==> (y - 100) % 400 == 0
    ensures y % 400 == 100 ==> y % 100 == 0 && y % 4 == 0
  {
    CenturyDivides(y);
    if y % 400 == 100 {
      DivUnique(y - 100, 400, y / 400, 0);
      DivUnique(y, 100, 4 * (y / 400) + 1, 0);
    }
    if (y - 100) % 400 == 0 {
      DivUnique(y, 400, (y - 100) / 400, 100);
    }
  }

  // setMonth clamps to the end of the target month, except exactly when Date.UTC misleads it.
  lemma SetMonthExact(t: int, value: int)
    ensures var n := 12 * YearOf(t) + value;
      SetMonth(t, value) == Clamped(n, DateOf(t), TimeInDay(t)) <==> !Misclamped(t, n)
  {
    hide MonthLength;
    hide At;
    hide DateOf;
    hide MonthOf;
    hide TimeInDay;
    hide DaysInMonth;
    hide LosesLeapDay;
    hide GainsLeapDay;
    var n := 12 * YearOf(t) + value;
    DaysInMonthIsLength(YearOf(t), value);
    Shift1900(n);
    MonthStep(n);
    MonthStep(n + 22800);
    if TwoDigitYear(YearOf(t)) {
      assert 12 * (1900 + YearOf(t)) + value == n + 22800;
      DaysDistinct(n, Min(DateOf(t), MonthLength(n + 22800)), Min(DateOf(t), MonthLength(n)), TimeInDay(t));
    }
  }

  lemma DaysDistinct(n: int, d: int, d': int, time: int)
    ensures At(n, d, time) == At(n, d', time) <==> d == d'
  {
    hide MonthStart;
  }

  lemma MonthOfIs(t: int)
    ensures 12 * YearOf(t) + MonthNumber(MonthOf(t)) == MonthOf(t)
  {
    hide MonthOf;
  }

  // The day of the month that clamping asks for.
  function LandingDay(t: int, k: int): int {
    if k == 0 then DateOf(t) else Min(DateOf(t), DaysInMonth(YearOf(t), MonthNumber(MonthOf(t)) + k))
  }

  // Added months land in the month aimed at, on the same day or earlier, unless they overflow
  // to the first of the month after it.
  lemma Lands(t: int, k: int)
    ensures var n, d := MonthOf(t) + k, LandingDay(t, k);
      AddMonths(t, k) == At(n, d, TimeInDay(t)) && 1 <= d <= DateOf(t) &&
      (k != 0 && Overflows(t, n) ==> d == 29 && MonthLength(n) == 28) &&
      (k == 0 || !Overflows(t, n) ==> d <= MonthLength(n))
    ensures k == 0 ==> AddMonths(t, k) == t
  {
    hide MonthLength;
    hide At;
    hide DateOf;
    hide MonthOf;
    hide TimeInDay;
    hide DaysInMonth;
    hide LosesLeapDay;
    hide GainsLeapDay;
    hide MonthNumber;
    hide YearOf;
    var n := MonthOf(t) + k;
    MonthOfIs(t);
    Parts(t);
    if k != 0 { LandingDayIs(t, k); }
    Shift1900(n);
    MonthStep(n);
    MonthStep(n + 22800);
  }

  lemma LandingDayIs(t: int, k: int)
    requires k != 0
    ensures var n := MonthOf(t) + k;
      LandingDay(t, k) == Min(DateOf(t), MonthLength(if TwoDigitYear(YearOf(t)) then n + 22800 else n))
  {
    hide MonthLength;
    hide DateOf;
    hide MonthOf;
    hide DaysInMonth;
    hide MonthNumber;
    hide YearOf;
    MonthOfIs(t);
    var value := MonthNumber(MonthOf(t)) + k;
    DaysInMonthIsLength(YearOf(t), value);
    assert 12 * (1900 + YearOf(t)) + value == MonthOf(t) + k + 22800;
  }

  datatype Difference = Difference(months: int, milliseconds: int)

  function MonthsBetween(base: int, other: int): int { MonthOf(other) - MonthOf(base) }

  function PositiveDifference(base: int, other: int): Difference {
    var whole := MonthsBetween(base, other);
    var months := if AddMonths(base, whole) > other then whole - 1 else whole;
    Difference(months, other - AddMonths(base, months))
  }

  // base + months <= other < base + (months + 1), the milliseconds being what is left.
  predicate IsFloor(base: int, other: int, r: Difference) {
    0 <= r.months && 0 <= r.milliseconds &&
    AddMonths(base, r.months) + r.milliseconds == other < AddMonths(base, r.months + 1)
  }

  // Adding up to the month before other overflows past other itself.
  predicate Skipped(base: int, other: int) {
    Overflows(base, MonthOf(other) - 1) && DateOf(other) == 1 && TimeInDay(other) < TimeInDay(base)
  }

  lemma NoSelfOverflow(t: int)
    ensures !Overflows(t, MonthOf(t))
  {
    hide MonthOf;
    hide DateOf;
    if TwoDigitYear(YearOf(t)) { DivUnique(YearOf(t), 400, 0, YearOf(t)); }
  }

  lemma EarlierMonth(t: int, u: int)
    requires MonthOf(t) < MonthOf(u)
    ensures t < u
  {
    hide At;
    hide MonthLength;
    hide MonthOf;
    Parts(t);
    Parts(u);
    AtOrder(MonthOf(t), DateOf(t), TimeInDay(t), MonthOf(u), DateOf(u), TimeInDay(u));
  }

  // Added months of a later or earlier month than other's are after or before other.
  lemma LandsAfter(t: int, k: int, other: int)
    requires MonthOf(other) < MonthOf(t) + k
    ensures other < AddMonths(t, k)
  {
    hide At;
    hide MonthLength;
    hide MonthOf;
    hide Overflows;
    hide DateOf;
    hide TimeInDay;
    Parts(other);
    Parts(t);
    Lands(t, k);
    AtOrder(MonthOf(other), DateOf(other), TimeInDay(other), MonthOf(t) + k, LandingDay(t, k), TimeInDay(t));
  }

  lemma LandsBefore(t: int, k: int, other: int)
    requires MonthOf(t) + k == MonthOf(other) - 1
    ensures AddMonths(t, k) <= other <==> !Skipped(t, other)
    ensures AddMonths(t, k) == other ==> Overflows(t, MonthOf(other) - 1)
  {
    hide At;
    hide MonthLength;
    hide MonthOf;
    hide Overflows;
    hide DateOf;
    hide TimeInDay;
    hide AddMonths;
    hide LandingDay;
    var n := MonthOf(t) + k;
    Parts(other);
    Parts(t);
    Lands(t, k);
    NoSelfOverflow(t);
    if Overflows(t, n) {
      AtOverflow(n, 29, TimeInDay(t));
      SameMonthOrder(n + 1, 1, TimeInDay(t), DateOf(other), TimeInDay(other));
    } else {
      AtOrder(n, LandingDay(t, k), TimeInDay(t), n + 1, DateOf(other), TimeInDay(other));
    }
  }

  lemma SameMonthOrder(n: int, d: int, time: int, d': int, time': int)
    requires 0 <= time < MS_PER_DAY && 0 <= time' < MS_PER_DAY
    ensures At(n, d, time) <= At(n, d', time') <==> d < d' || (d == d' && time <= time')
  {
    hide MonthStart;
    var s := MonthStart(n);
    if d < d' {
      assert (s + d) * MS_PER_DAY <= (s + d' - 1) * MS_PER_DAY;
    } else if d' < d {
      assert (s + d') * MS_PER_DAY <= (s + d - 1) * MS_PER_DAY;
    }
  }

  // In the month other lies in, an overflow behind base leaves base's own day beyond other's.
  lemma AfterOverflow(base: int, other: int)
    requires Overflows(base, MonthOf(other) - 1) && DateOf(other) == 1
    ensures AddMonths(base, MonthsBetween(base, other)) > other
  {
    hide At;
    hide MonthOf;
    hide DateOf;
    hide TimeInDay;
    hide AddMonths;
    hide LandingDay;
    hide MonthLength;
    var n := MonthOf(other);
    var k := MonthsBetween(base, other);
    MarchFollows(n - 1);
    Parts(other);
    Parts(base);
    Lands(base, k);
    MonthStep(n);
    MonthStep(n + 22800);
    if k == 0 {
      SameMonthOrder(n, DateOf(base), TimeInDay(base), 1, TimeInDay(other));
    } else {
      LandingDayIs(base, k);
      SameMonthOrder(n, LandingDay(base, k), TimeInDay(base), 1, TimeInDay(other));
    }
  }

  lemma MarchFollows(n: int)
    requires GainsLeapDay(n)
    ensures (n + 1) % 12 == 2 && (n + 1 + 22800) % 12 == 2
  {
    DivUnique(n + 1, 12, n / 12, 2);
    DivUnique(n + 22801, 12, n / 12 + 1900, 2);
  }

  // The month count is the greatest one not leading past other, and never negative: the single
  // decrement suffices. It fails exactly when Date.UTC makes the step before overflow past other.
  lemma DifferenceIsFloor(base: int, other: int)
    requires base < other
    ensures IsFloor(base, other, PositiveDifference(base, other)) <==> !Skipped(base, other)
    ensures 0 <= PositiveDifference(base, other).months
    ensures var r := PositiveDifference(base, other); AddMonths(base, r.months) + r.milliseconds == other
  {
    hide At;
    hide MonthOf;
    hide DateOf;
    hide TimeInDay;
    hide AddMonths;
    hide Overflows;
    var whole := MonthsBetween(base, other);
    if MonthOf(other) < MonthOf(base) { EarlierMonth(other, base); }
    Lands(base, 0);
    LandsAfter(base, whole + 1, other);
    LandsBefore(base, whole - 1, other);
    if Skipped(base, other) { AfterOverflow(base, other); }
  }

  // Consecutive month counts never meet, not even around an overflow.
  lemma AddMonthsIncreases(t: int, k: int)
    ensures AddMonths(t, k) < AddMonths(t, k + 1)
  {
    hide At;
    hide MonthOf;
    hide DateOf;
    hide TimeInDay;
    hide AddMonths;
    hide LandingDay;
    hide MonthLength;
    hide Overflows;
    var n := MonthOf(t) + k;
    Parts(t);
    Lands(t, k);
    Lands(t, k + 1);
    if k != 0 && Overflows(t, n) {
      AfterOverflowLands(t, k);
      AtOverflow(n, 29, TimeInDay(t));
      SameMonthOrder(n + 1, LandingDay(t, k + 1), TimeInDay(t), 1, TimeInDay(t));
    } else {
      AtOrder(n, LandingDay(t, k), TimeInDay(t), n + 1, LandingDay(t, k + 1), TimeInDay(t));
    }
  }

  lemma AfterOverflowLands(t: int, k: int)
    requires Overflows(t, MonthOf(t) + k)
    ensures 28 < LandingDay(t, k + 1)
  {
    hide At;
    hide MonthOf;
    hide DateOf;
    hide TimeInDay;
    hide AddMonths;
    hide MonthLength;
    hide DaysInMonth;
    var n := MonthOf(t) + k;
    MarchFollows(n);
    MonthStep(n + 1);
    MonthStep(n + 1 + 22800);
    if k + 1 != 0 { LandingDayIs(t, k + 1); }
  }

  lemma {:induction false} AddMonthsOrder(t: int, j: int, k: int)
    requires j < k
    ensures AddMonths(t, j) < AddMonths(t, k)
    decreases k - j
  {
    hide AddMonths;
    AddMonthsIncreases(t, k - 1);
    if j < k - 1 { AddMonthsOrder(t, j, k - 1); }
  }

  // The floor is one of a kind, so positiveMomentsDifference has no choice.
  lemma FloorUnique(base: int, other: int, r: Difference, s: Difference)
    requires IsFloor(base, other, r) && IsFloor(base, other, s)
    ensures r == s
  {
    hide AddMonths;
    if r.months + 1 < s.months { AddMonthsOrder(base, r.months + 1, s.months); }
    if s.months + 1 < r.months { AddMonthsOrder(base, s.months + 1, r.months); }
  }

  // The whole months from a to b and the rest as a fraction of the month b lies in.
  datatype MonthSpan = MonthSpan(whole: int, adjust: real)

  predicate IsQuotient(q: real, x: int, y: int) {
    0 < y && q == x as real / y as real && q * y as real == x as real
  }

  function MonthDiffSpan(a: int, b: int): MonthSpan {
    var whole := MonthsBetween(a, b);
    var anchor := AddMonths(a, whole);
    Anchors(a, whole);
    if b - anchor < 0 then
      MonthSpan(whole, (b - anchor) as real / (anchor - AddMonths(a, whole - 1)) as real)
    else
      MonthSpan(whole, (b - anchor) as real / (AddMonths(a, whole + 1) - anchor) as real)
  }

  lemma Anchors(a: int, whole: int)
    ensures AddMonths(a, whole - 1) < AddMonths(a, whole) < AddMonths(a, whole + 1)
  {
    hide AddMonths;
    AddMonthsIncreases(a, whole - 1);
    AddMonthsIncreases(a, whole);
    assert whole - 1 + 1 == whole;
  }

  // The result of monthDiff, before diff truncates it with absFloor.
  function MonthDiff(a: int, b: int): real { Total(MonthDiffSpan(a, b)) }

  function Total(s: MonthSpan): real { -(s.whole as real + s.adjust) }

  function AbsFloor(x: real): int {
    if x < 0.0 then -(-x).Floor else x.Floor
  }

  lemma Ratio(q: real, x: int, y: int)
    requires IsQuotient(q, x, y)
    ensures 0 <= x <==> 0.0 <= q
    ensures x < y <==> q < 1.0
    ensures -y < x <==> -1.0 < q
    ensures -y == x <==> -1.0 == q
    ensures x == 0 <==> q == 0.0
  {
    RatioSign(q, x, y);
    RatioSign(q - 1.0, x - y, y);
    RatioSign(q + 1.0, x + y, y);
  }

  lemma RatioSign(q: real, x: int, y: int)
    requires 0 < y && q * y as real == x as real
    ensures 0 < x <==> 0.0 < q
    ensures x < 0 <==> q < 0.0
  {
    Scale(q, y as real);
  }

  // Multiplying by a positive number keeps the sign.
  lemma Scale(q: real, y: real)
    requires 0.0 < y
    ensures 0.0 < q <==> 0.0 < q * y
    ensures q < 0.0 <==> q * y < 0.0
  {
    if q > 0.0 { assert q * y > 0.0; } else if q < 0.0 { assert -q * y > 0.0; }
  }

  lemma SpanIs(a: int, b: int)
    ensures var whole, s := MonthsBetween(a, b), MonthDiffSpan(a, b);
      var anchor2, anchor, anchor3 := AddMonths(a, whole - 1), AddMonths(a, whole), AddMonths(a, whole + 1);
      s.whole == whole && anchor2 < anchor < anchor3 &&
      IsQuotient(s.adjust, b - anchor, if b < anchor then anchor - anchor2 else anchor3 - anchor)
  {
    hide AddMonths;
    hide MonthsBetween;
    Anchors(a, MonthsBetween(a, b));
  }

  // Adding up to the month before b overflows to b or past it.
  predicate SkippedOrMet(a: int, b: int) {
    Overflows(a, MonthOf(b) - 1) && DateOf(b) == 1 && TimeInDay(b) <= TimeInDay(a)
  }

  lemma MetIsSkipped(a: int, b: int)
    ensures AddMonths(a, MonthsBetween(a, b) - 1) < b <==> !SkippedOrMet(a, b)
  {
    hide AddMonths;
    hide Overflows;
    hide MonthOf;
    hide DateOf;
    hide TimeInDay;
    hide At;
    hide LandingDay;
    hide MonthLength;
    var k := MonthsBetween(a, b) - 1;
    LandsBefore(a, k, b);
    Lands(a, k);
    if Overflows(a, MonthOf(b) - 1) {
      NoSelfOverflow(a);
      AtOverflow(MonthOf(b) - 1, 29, TimeInDay(a));
      Parts(b);
      Parts(a);
      SameMonthOrder(MonthOf(b), DateOf(b), TimeInDay(b), 1, TimeInDay(a));
    }
  }

  // The linear adjustment stays strictly within one month, with the same exception.
  lemma AdjustWithinMonth(a: int, b: int)
    ensures (-1.0 < MonthDiffSpan(a, b).adjust < 1.0) <==> !SkippedOrMet(a, b)
    ensures MonthDiffSpan(a, b).adjust < 1.0
    ensures MonthDiffSpan(a, b).adjust < 0.0 <==> b < AddMonths(a, MonthsBetween(a, b))
    ensures MonthDiffSpan(a, b).adjust == 0.0 <==> b == AddMonths(a, MonthsBetween(a, b))
  {
    hide AddMonths;
    hide MonthOf;
    hide Overflows;
    hide DateOf;
    hide TimeInDay;
    hide MonthDiffSpan;
    hide IsQuotient;
    var whole := MonthsBetween(a, b);
    var anchor := AddMonths(a, whole);
    SpanIs(a, b);
    MetIsSkipped(a, b);
    LandsAfter(a, whole + 1, b);
    if SkippedOrMet(a, b) { AfterOverflow(a, b); }
    if b < anchor {
      Ratio(MonthDiffSpan(a, b).adjust, b - anchor, anchor - AddMonths(a, whole - 1));
    } else {
      Ratio(MonthDiffSpan(a, b).adjust, b - anchor, AddMonths(a, whole + 1) - anchor);
    }
  }

  // Truncation of minus a month span, by where its adjustment lies.
  lemma TruncateForwards(s: MonthSpan)
    requires s.adjust < 1.0
    ensures var k := AbsFloor(Total(s));
      if s.adjust < -1.0 then s.whole >= 2 ==> k != 1 - s.whole
      else if s.adjust == -1.0 then k == 1 - s.whole
      else if s.adjust < 0.0 then s.whole > 0 ==> k == 1 - s.whole
      else s.whole >= 0 ==> k == -s.whole
  {
  }

  lemma TruncateBackwards(s: MonthSpan)
    requires -1.0 < s.adjust < 1.0 && s.whole <= 0 && (s.whole == 0 ==> s.adjust <= 0.0)
    ensures -AbsFloor(Total(s)) == if s.adjust <= 0.0 then s.whole else s.whole + 1
  {
  }

  // For a before b, diff's truncation yields minus the month count of positiveMomentsDifference,
  // unless, again, the step before overflows past b.
  lemma MonthDiffTruncates(a: int, b: int)
    requires a < b
    ensures AbsFloor(MonthDiff(a, b)) == -PositiveDifference(a, b).months <==> !Skipped(a, b)
  {
    hide AddMonths;
    hide MonthOf;
    hide DateOf;
    hide TimeInDay;
    hide Overflows;
    hide MonthDiffSpan;
    hide IsQuotient;
    hide AbsFloor;
    hide Total;
    hide PositiveDifference;
    hide Skipped;
    hide SkippedOrMet;
    var s := MonthDiffSpan(a, b);
    AdjustWithinMonth(a, b);
    AdjustAgainstMonthBefore(a, b);
    SpanIs(a, b);
    DifferenceCases(a, b);
    TruncateForwards(s);
  }

  lemma DifferenceCases(a: int, b: int)
    requires a < b
    ensures var whole := MonthsBetween(a, b);
      PositiveDifference(a, b).months == (if b < AddMonths(a, whole) then whole - 1 else whole) &&
      0 <= PositiveDifference(a, b).months &&
      (SkippedOrMet(a, b) <==> b <= AddMonths(a, whole - 1)) &&
      (Skipped(a, b) <==> b < AddMonths(a, whole - 1)) &&
      (SkippedOrMet(a, b) ==> 2 <= whole) && b < AddMonths(a, whole + 1)
  {
    hide AddMonths;
    hide MonthOf;
    hide DateOf;
    hide TimeInDay;
    hide Overflows;
    var whole := MonthsBetween(a, b);
    DifferenceIsFloor(a, b);
    MetIsSkipped(a, b);
    LandsBefore(a, whole - 1, b);
    LandsAfter(a, whole + 1, b);
    NoSelfOverflow(a);
    if SkippedOrMet(a, b) { AfterOverflow(a, b); Lands(a, 0); }
  }

  lemma AdjustAgainstMonthBefore(a: int, b: int)
    ensures var whole := MonthsBetween(a, b);
      (MonthDiffSpan(a, b).adjust < -1.0 <==> b < AddMonths(a, whole - 1)) &&
      (MonthDiffSpan(a, b).adjust == -1.0 <==> b == AddMonths(a, whole - 1))
  {
    hide AddMonths;
    hide MonthsBetween;
    hide MonthDiffSpan;
    hide IsQuotient;
    SpanIs(a, b);
    var whole := MonthsBetween(a, b);
    var anchor, anchor2 := AddMonths(a, whole), AddMonths(a, whole - 1);
    if b < anchor {
      Ratio(MonthDiffSpan(a, b).adjust, b - anchor, anchor - anchor2);
    } else {
      Ratio(MonthDiffSpan(a, b).adjust, b - anchor, AddMonths(a, whole + 1) - anchor);
    }
  }

  predicate IsCeiling(a: int, b: int, j: int) {
    AddMonths(a, j - 1) < b <= AddMonths(a, j)
  }

  // Where the ceiling of the month count lies, by the adjustment.
  lemma Ceiling(a: int, b: int)
    requires !SkippedOrMet(a, b)
    ensures var s := MonthDiffSpan(a, b); IsCeiling(a, b, if s.adjust <= 0.0 then s.whole else s.whole + 1)
  {
    hide AddMonths;
    hide MonthsBetween;
    hide SkippedOrMet;
    hide MonthDiffSpan;
    hide IsQuotient;
    var s := MonthDiffSpan(a, b);
    AdjustWithinMonth(a, b);
    SpanIs(a, b);
    MetIsSkipped(a, b);
    LandsAfter'(a, b);
    if s.adjust <= 0.0 {
      assert IsCeiling(a, b, s.whole);
    } else {
      assert IsCeiling(a, b, s.whole + 1) by { assert s.whole + 1 - 1 == s.whole; }
    }
  }

  lemma LandsAfter'(a: int, b: int)
    ensures b < AddMonths(a, MonthsBetween(a, b) + 1)
  {
    hide AddMonths;
    hide MonthOf;
    LandsAfter(a, MonthsBetween(a, b) + 1, b);
  }

  lemma BackwardsSpan(a: int, b: int)
    requires b <= a && !SkippedOrMet(a, b)
    ensures var s := MonthDiffSpan(a, b);
      -1.0 < s.adjust < 1.0 && s.whole <= 0 && (s.whole == 0 ==> s.adjust <= 0.0)
  {
    hide AddMonths;
    hide MonthOf;
    hide SkippedOrMet;
    hide MonthDiffSpan;
    hide IsQuotient;
    AdjustWithinMonth(a, b);
    SpanIs(a, b);
    Lands(a, MonthsBetween(a, b));
    if MonthOf(a) < MonthOf(b) { EarlierMonth(a, b); }
  }

  // Past an overflow the month before the anchor is already at or after b, the one before that is not.
  lemma SkippedSpan(a: int, b: int)
    requires SkippedOrMet(a, b)
    ensures var s := MonthDiffSpan(a, b); -2.0 < s.adjust <= -1.0 && IsCeiling(a, b, s.whole - 1)
  {
    hide AddMonths;
    hide MonthOf;
    hide SkippedOrMet;
    hide MonthDiffSpan;
    hide IsQuotient;
    var whole, s := MonthsBetween(a, b), MonthDiffSpan(a, b);
    SpanIs(a, b);
    MetIsSkipped(a, b);
    AdjustAgainstMonthBefore(a, b);
    JanuaryBefore(a, b);
    SkippedAnchors(a, b);
    var anchor, anchor2 := AddMonths(a, whole), AddMonths(a, whole - 1);
    NotTwice(s.adjust, b - anchor, anchor - anchor2);
    var k := whole - 1;
    assert k - 1 == whole - 2;
  }

  // An adjustment further from zero than -2.
  lemma NotTwice(q: real, x: int, y: int)
    requires IsQuotient(q, x, y)
    ensures -2 * y < x <==> -2.0 < q
  {
    assert (q + 2.0) * y as real == (x + 2 * y) as real;
    RatioSign(q + 2.0, x + 2 * y, y);
  }

  lemma JanuaryBefore(a: int, b: int)
    requires SkippedOrMet(a, b)
    ensures AddMonths(a, MonthsBetween(a, b) - 2) < b
  {
    hide At;
    hide MonthOf;
    hide DateOf;
    hide TimeInDay;
    hide AddMonths;
    hide LandingDay;
    hide MonthLength;
    var n := MonthOf(b) - 2;
    assert !Overflows(a, n);
    Parts(a);
    Parts(b);
    Lands(a, MonthsBetween(a, b) - 2);
    AtOrder(n, LandingDay(a, MonthsBetween(a, b) - 2), TimeInDay(a), MonthOf(b), DateOf(b), TimeInDay(b));
  }

  // b is less than a day before the overflow, and the anchor at least 28 days behind it.
  lemma SkippedAnchors(a: int, b: int)
    requires SkippedOrMet(a, b)
    ensures var whole := MonthsBetween(a, b);
      b < AddMonths(a, whole) && -2 * (AddMonths(a, whole) - AddMonths(a, whole - 1)) < b - AddMonths(a, whole)
  {
    hide MonthStart;
    hide MonthOf;
    hide DateOf;
    hide TimeInDay;
    hide AddMonths;
    hide LandingDay;
    hide MonthLength;
    var whole, m := MonthsBetween(a, b), MonthOf(b);
    Parts(a);
    Parts(b);
    NoSelfOverflow(a);
    Lands(a, whole - 1);
    Lands(a, whole);
    NoSelfOverflow(a);
    AfterOverflow(a, b);
    AfterOverflowLands(a, whole - 1);
    AtOverflow(m - 1, 29, TimeInDay(a));
    assert AddMonths(a, whole - 1) == At(m, 1, TimeInDay(a));
    assert AddMonths(a, whole) == At(m, LandingDay(a, whole), TimeInDay(a));
  }

  lemma TruncateSkipped(s: MonthSpan)
    requires -2.0 < s.adjust <= -1.0 && s.whole <= 0
    ensures -AbsFloor(Total(s)) == s.whole - 1
  {
  }

  // Backwards, truncation gives the least count of months, as a negative number, not before b.
  lemma MonthDiffBackwards(a: int, b: int)
    requires b <= a
    ensures var j := -AbsFloor(MonthDiff(a, b)); j <= 0 && IsCeiling(a, b, j)
  {
    hide AddMonths;
    hide MonthOf;
    hide MonthDiffSpan;
    hide SkippedOrMet;
    hide AbsFloor;
    hide Total;
    hide IsCeiling;
    var s := MonthDiffSpan(a, b);
    if SkippedOrMet(a, b) {
      SkippedSpan(a, b);
      SpanIs(a, b);
      if MonthOf(a) < MonthOf(b) { EarlierMonth(a, b); }
      TruncateSkipped(s);
    } else {
      BackwardsSpan(a, b);
      Ceiling(a, b);
      TruncateBackwards(s);
    }
  }

  // The difference with its sign turned is the whole months and, linearly, what b is off the anchor, as a
  // share of the month on that side of it.
  lemma MonthDiffExact(a: int, b: int)
    ensures var whole := MonthsBetween(a, b);
      var anchor2, anchor, anchor3 := AddMonths(a, whole - 1), AddMonths(a, whole), AddMonths(a, whole + 1);
      (-MonthDiff(a, b) - whole as real) * (if b < anchor then anchor - anchor2 else anchor3 - anchor) as real == (b - anchor) as real
  {
    hide AddMonths;
    hide MonthOf;
    hide MonthDiffSpan;
    SpanIs(a, b);
    assert -MonthDiff(a, b) - MonthsBetween(a, b) as real == MonthDiffSpan(a, b).adjust;
  }

  // When the overflow skips other, the difference is one month too many.
  lemma SkippedByOne(base: int, other: int)
    requires base < other && Skipped(base, other)
    ensures var r := PositiveDifference(base, other);
      r.milliseconds < 0 && IsFloor(base, other, Difference(r.months - 1, other - AddMonths(base, r.months - 1)))
  {
    hide MonthOf;
    hide DateOf;
    hide TimeInDay;
    hide AddMonths;
    hide Overflows;
    hide PositiveDifference;
    var whole, r := MonthsBetween(base, other), PositiveDifference(base, other);
    DifferenceCases(base, other);
    DifferenceIsFloor(base, other);
    SkippedJanuary(base, other);
    Anchors(base, whole);
    assert SkippedOrMet(base, other) && r.months == whole - 1;
    var k := whole - 2;
    assert k + 1 == whole - 1 && r.months - 1 == k;
  }

  lemma SkippedJanuary(base: int, other: int)
    requires Skipped(base, other)
    ensures AddMonths(base, MonthsBetween(base, other) - 2) < other
  {
    hide MonthOf;
    hide DateOf;
    hide TimeInDay;
    hide AddMonths;
    hide Overflows;
    assert SkippedOrMet(base, other);
    JanuaryBefore(base, other);
  }

  // ----- the overflow happens

  // From noon of the last day of the year 99 to the beginning of March of the year 100: two months on
  // from base Date.UTC finds 29 days in February, and the overflow skips other.
  lemma SkipHappens() returns (base: int, other: int)
    ensures base < other && Skipped(base, other) && SkippedOrMet(base, other) && Misclamped(base, MonthOf(base) + 2)
    ensures !IsFloor(base, other, PositiveDifference(base, other))
    ensures AbsFloor(MonthDiff(base, other)) != -PositiveDifference(base, other).months
    ensures !(-1.0 < MonthDiffSpan(base, other).adjust < 1.0)
    ensures SetMonth(base, MonthNumber(MonthOf(base)) + 2) != Clamped(MonthOf(base) + 2, DateOf(base), TimeInDay(base))
  {
    hide *;
    base, other := At(1199, 31, 43200000), At(1202, 1, 0);
    SkipParts();
    DifferenceIsFloor(base, other);
    MonthDiffTruncates(base, other);
    AdjustWithinMonth(base, other);
    SetMonthExact(base, MonthNumber(MonthOf(base)) + 2);
    MonthOfIs(base);
    assert 12 * YearOf(base) + (MonthNumber(MonthOf(base)) + 2) == MonthOf(base) + 2;
  }

  lemma SkipParts()
    ensures var base, other := At(1199, 31, 43200000), At(1202, 1, 0);
      base < other && Skipped(base, other) && SkippedOrMet(base, other) && Misclamped(base, MonthOf(base) + 2)
  {
    hide At;
    hide MonthOf;
    hide DateOf;
    hide TimeInDay;
    hide MonthLength;
    MonthStep(1199);
    MonthStep(1202);
    AtParts(1199, 31, 43200000);
    AtParts(1202, 1, 0);
    AtOrder(1199, 31, 43200000, 1202, 1, 0);
  }
}
