/** The day view of the date picker: fill writes a table of 42 days around the viewed month, and
    click decodes a day cell from the number it shows and its old/new class. */
module MonthGrid {
  import opened Arithmetic
  import opened Gregorian
  import opened Dates
  import W = WeekDates

  // What fill pushes for the table body; isOld and isNew are the cell's CSS classes.
  datatype Html = RowOpen | WeekCell(week: int) | DayCell(number: int, isOld: bool, isNew: bool) | RowClose

  // getDaysInMonth of the picker does its own leap-year arithmetic.
  function GetDaysInMonth(year: int, month: int): int
    requires 0 <= month < 12
  {
    [31, if LeapYear(year) then 29 else 28, 31, 30, 31, 30, 31, 31, 30, 31, 30, 31][month]
  }

  // The day class of getClassNames for a cell, against the viewed month.
  function DayCellOf(day: int, view: int): (cell: Html)
    ensures cell.DayCell?
  {
    var isOld := Year(day) < view / 12 || (Year(day) == view / 12 && Month(day) < MonthNumber(view));
    var isNew := !isOld && (Year(day) > view / 12 || (Year(day) == view / 12 && Month(day) > MonthNumber(view)));
    DayCell(Date(day), isOld, isNew)
  }

  // The month whose days are laid out: Date.UTC moves the years 0 to 99 by 1900 years.
  function LaidOut(view: int): int {
    if TwoDigitYear(view / 12) then view + 22800 else view
  }

  // The first cell: the last weekStart before the month laid out.
  function FirstCell(view: int, weekStart: int): int {
    var last := MonthStart(LaidOut(view)) - 1;
    last - (WeekDay(last) - weekStart + 7) % 7
  }

  // Days from a day to the first Thursday on or after it.
  function ToThursday(day: int): int { (7 + 4 - WeekDay(day)) % 7 }

  // The week number fill shows, from the Thursdays of the week and of the new year.
  function CalWeek(day: int): int {
    var th := day + ToThursday(day);
    var newYear := Day(DateUTC(Year(th), 0, 1));
    var yth := newYear + ToThursday(newYear);
    (th - yth) / 7 + 1
  }

  function DayHtml(day: int, view: int, weekStart: int, weeks: bool): seq<Html> {
    (if WeekDay(day) == weekStart then [RowOpen] + (if weeks then [WeekCell(CalWeek(day))] else []) else []) +
    [DayCellOf(day, view)] +
    (if WeekDay(day) == (weekStart + 6) % 7 then [RowClose] else [])
  }

  // The html of k days from a first one on.
  function DaysHtml(first: int, k: nat, view: int, weekStart: int, weeks: bool): seq<Html> {
    if k == 0 then [] else DaysHtml(first, k - 1, view, weekStart, weeks) + DayHtml(first + k - 1, view, weekStart, weeks)
  }

  lemma DayShift(t: int, days: int)
    ensures At(MonthOf(t), DateOf(t) + days, TimeInDay(t)) == t + days * MS_PER_DAY
  {
    hide MonthStart;
    hide MonthFromDay;
  }

  lemma LastOfMonthBefore(n: int)
    ensures At(n - 1, MonthLength(n - 1), 0) == Instant(MonthStart(n) - 1, 0)
  {
    hide MonthStart;
  }

  lemma DaysInMonthAgree(n: int)
    ensures GetDaysInMonth(n / 12, MonthNumber(n)) == MonthLength(n)
  {
    hide MonthLength;
    MonthStep(n);
  }

  // Where the three steps that place prevMonth leave it.
  lemma FirstCellReached(view: int, weekStart: int)
    requires 0 <= weekStart < 7
    ensures var t := DateUTC(view / 12, MonthNumber(view) - 1, 28);
      var day := GetDaysInMonth(YearOf(t), MonthNumber(MonthOf(t)));
      var u := At(MonthOf(t), day, TimeInDay(t));
      At(MonthOf(u), day - (WeekDayOf(u) - weekStart + 7) % 7, TimeInDay(u)) == Instant(FirstCell(view, weekStart), 0)
  {
    hide MonthStart;
    hide MonthOf;
    hide TimeInDay;
    hide DateOf;
    hide WeekDay;
    hide Day;
    hide MonthLength;
    hide At;
    var n := LaidOut(view);
    assert 12 * (if TwoDigitYear(view / 12) then 1900 + view / 12 else view / 12) + (MonthNumber(view) - 1) == n - 1;
    MonthStep(n - 1);
    AtParts(n - 1, 28, 0);
    AtParts(n - 1, MonthLength(n - 1), 0);
    DaysInMonthAgree(n - 1);
    LastOfMonthBefore(n);
    var u := At(n - 1, MonthLength(n - 1), 0);
    InstantParts(MonthStart(n) - 1, 0);
    DayShift(u, -((WeekDayOf(u) - weekStart + 7) % 7));
  }

  class DayView {
    const viewDate: JsDate
    const weekStart: int
    const calendarWeeks: bool

    constructor (viewDate: JsDate, weekStart: int, calendarWeeks: bool)
      ensures this.viewDate == viewDate && this.weekStart == weekStart && this.calendarWeeks == calendarWeeks
    {
      this.viewDate := viewDate;
      this.weekStart := weekStart;
      this.calendarWeeks := calendarWeeks;
    }

    method Fill() returns (html: seq<Html>)
      requires 0 <= weekStart < 7
      ensures var view := MonthOf(viewDate.time);
        html == DaysHtml(FirstCell(view, weekStart), 42, view, weekStart, calendarWeeks)
    {
      hide MonthOf;
      hide TimeInDay;
      hide DateOf;
      hide At;
      hide WeekDay;
      hide Day;
      hide GetDaysInMonth;
      hide FirstCell;
      hide CalWeek;
      hide DayCellOf;
      hide MonthNumber;
      hide DateUTC;
      var view := MonthOf(viewDate.time);
      ghost var first := FirstCell(view, weekStart);
      var year, month := YearOf(viewDate.time), MonthNumber(view);
      var prevMonth := new JsDate(DateUTC(year, month - 1, 28));
      var day := GetDaysInMonth(YearOf(prevMonth.time), MonthNumber(MonthOf(prevMonth.time)));
      prevMonth.SetUTCDate(day);
      prevMonth.SetUTCDate(day - (WeekDayOf(prevMonth.time) - weekStart + 7) % 7);
      FirstCellReached(view, weekStart);
      DayShift(prevMonth.time, 42);
      var nextMonth := new JsDate(prevMonth.time);
      nextMonth.SetUTCDate(DateOf(nextMonth.time) + 42);
      html := [];
      ghost var k := 0;
      while prevMonth.time < nextMonth.time
        invariant 0 <= k <= 42 && fresh(prevMonth) && nextMonth != prevMonth
        invariant prevMonth.time == Instant(first + k, 0) && nextMonth.time == Instant(first + 42, 0)
        invariant html == DaysHtml(first, k, view, weekStart, calendarWeeks)
        decreases 42 - k
      {
        ghost var before := html;
        var d := Day(prevMonth.time);
        InstantParts(first + k, 0);
        if WeekDay(d) == weekStart {
          html := html + [RowOpen];
          if calendarWeeks {
            html := html + [WeekCell(CalWeek(d))];
          }
        }
        html := html + [DayCellOf(d, view)];
        if WeekDay(d) == (weekStart + 6) % 7 {
          html := html + [RowClose];
        }
        assert html == before + DayHtml(first + k, view, weekStart, calendarWeeks);
        DayShift(prevMonth.time, 1);
        prevMonth.SetUTCDate(DateOf(prevMonth.time) + 1);
        k := k + 1;
      }
    }
  }

  // One complete week of the table.
  function WeekRow(first: int, view: int, weeks: bool): seq<Html> {
    OpenRow(first, 7, view, weeks) + [RowClose]
  }

  // The row up to its first n days.
  function OpenRow(first: int, n: nat, view: int, weeks: bool): seq<Html> {
    [RowOpen] + (if weeks then [WeekCell(CalWeek(first))] else []) +
    seq(n, i requires 0 <= i < n => DayCellOf(first + i, view))
  }

  function WeekRows(first: int, n: nat, view: int, weeks: bool): seq<Html> {
    if n == 0 then [] else WeekRows(first, n - 1, view, weeks) + WeekRow(first + 7 * (n - 1), view, weeks)
  }

  lemma WeekDayAfter(day: int, i: int)
    requires 0 <= i < 7
    ensures WeekDay(day + i) == WeekDay(day) <==> i == 0
    ensures WeekDay(day + i) == (WeekDay(day) + 6) % 7 <==> i == 6
    ensures WeekDay(day + 7) == WeekDay(day)
  {
    var q, w := (day + 4) / 7, WeekDay(day);
    DivUnique(day + 7 + 4, 7, q + 1, w);
    if w + i < 7 { DivUnique(day + i + 4, 7, q, w + i); } else { DivUnique(day + i + 4, 7, q + 1, w + i - 7); }
    if w == 0 { DivUnique(w + 6, 7, 0, 6); } else { DivUnique(w + 6, 7, 1, w - 1); }
  }

  lemma NextDay(first: int, k: nat, view: int, weekStart: int, weeks: bool)
    ensures DaysHtml(first, k + 1, view, weekStart, weeks) ==
      DaysHtml(first, k, view, weekStart, weeks) + DayHtml(first + k, view, weekStart, weeks)
  {
    hide DayHtml;
  }

  lemma NextCell(first: int, i: nat, view: int, weeks: bool)
    ensures OpenRow(first, i + 1, view, weeks) == OpenRow(first, i, view, weeks) + [DayCellOf(first + i, view)]
  {
    hide CalWeek;
    hide DayCellOf;
  }

  // The html of day i of a week.
  lemma DayInWeek(first: int, i: nat, view: int, weekStart: int, weeks: bool)
    requires WeekDay(first) == weekStart && i < 7
    ensures var cell := [DayCellOf(first + i, view)];
      DayHtml(first + i, view, weekStart, weeks) ==
        if i == 0 then OpenRow(first, 1, view, weeks) else if i == 6 then cell + [RowClose] else cell
  {
    hide WeekDay;
    hide CalWeek;
    hide DayCellOf;
    WeekDayAfter(first, i);
  }

  // Part of a week, from its first day on.
  lemma {:induction false} PartialWeek(first: int, k: nat, i: nat, view: int, weekStart: int, weeks: bool)
    requires WeekDay(first + k) == weekStart && 0 < i < 7
    ensures DaysHtml(first, k + i, view, weekStart, weeks) ==
      DaysHtml(first, k, view, weekStart, weeks) + OpenRow(first + k, i, view, weeks)
  {
    hide WeekDay;
    hide OpenRow;
    hide DayHtml;
    hide DaysHtml;
    hide DayCellOf;
    NextDay(first, k + i - 1, view, weekStart, weeks);
    DayInWeek(first + k, i - 1, view, weekStart, weeks);
    if i > 1 {
      PartialWeek(first, k, i - 1, view, weekStart, weeks);
      NextCell(first + k, i - 1, view, weeks);
    }
  }

  lemma WholeWeek(first: int, k: nat, view: int, weekStart: int, weeks: bool)
    requires WeekDay(first + k) == weekStart
    ensures DaysHtml(first, k + 7, view, weekStart, weeks) ==
      DaysHtml(first, k, view, weekStart, weeks) + WeekRow(first + k, view, weeks)
  {
    hide WeekDay;
    hide OpenRow;
    hide DayHtml;
    hide DaysHtml;
    hide DayCellOf;
    PartialWeek(first, k, 6, view, weekStart, weeks);
    NextDay(first, k + 6, view, weekStart, weeks);
    DayInWeek(first + k, 6, view, weekStart, weeks);
    NextCell(first + k, 6, view, weeks);
  }

  lemma {:induction false} WeeksOf(first: int, n: nat, view: int, weekStart: int, weeks: bool)
    requires WeekDay(first) == weekStart
    ensures WeekDay(first + 7 * n) == weekStart
    ensures DaysHtml(first, 7 * n, view, weekStart, weeks) == WeekRows(first, n, view, weeks)
  {
    hide WeekDay;
    hide WeekRow;
    hide DayHtml;
    if n > 0 {
      var k := 7 * (n - 1);
      WeeksOf(first, n - 1, view, weekStart, weeks);
      WholeWeek(first, k, view, weekStart, weeks);
      WeekDayAfter(first + k, 0);
      assert 7 * n == k + 7;
    }
  }

  // The table is six complete weeks from weekStart on. They hold the whole month laid out, a day
  // of the month before it and four of the month after it.
  lemma GridLayout(view: int, weekStart: int, weeks: bool)
    requires 0 <= weekStart < 7
    ensures var first := FirstCell(view, weekStart);
      WeekDay(first) == weekStart && DaysHtml(first, 42, view, weekStart, weeks) == WeekRows(first, 6, view, weeks) &&
      MonthStart(LaidOut(view)) - 7 <= first < MonthStart(LaidOut(view)) &&
      MonthStart(LaidOut(view) + 1) + 4 <= first + 42
  {
    hide MonthStart;
    hide LaidOut;
    var last := MonthStart(LaidOut(view)) - 1;
    var q, w := (last + 4) / 7, WeekDay(last);
    if w >= weekStart {
      DivUnique(w - weekStart + 7, 7, 1, w - weekStart);
      DivUnique(FirstCell(view, weekStart) + 4, 7, q, weekStart);
    } else {
      DivUnique(w - weekStart + 7, 7, 0, w - weekStart + 7);
      DivUnique(FirstCell(view, weekStart) + 4, 7, q - 1, weekStart);
    }
    MonthStep(LaidOut(view));
    WeeksOf(FirstCell(view, weekStart), 6, view, weekStart, weeks);
  }

  // Where everything is in the html: row i of the six opens and closes, begins with its week number if
  // asked for, and has the seven days from 7 * i on in order.
  lemma HtmlAt(view: int, weekStart: int, weeks: bool, i: nat, d: nat)
    requires 0 <= weekStart < 7 && i < 6 && d < 7
    ensures var first, w := FirstCell(view, weekStart), if weeks then 10 else 9;
      var html := DaysHtml(first, 42, view, weekStart, weeks);
      |html| == 6 * w && html[i * w] == RowOpen && html[i * w + w - 1] == RowClose &&
      (weeks ==> html[i * w + 1] == WeekCell(CalWeek(first + 7 * i))) &&
      html[i * w + w - 8 + d] == DayCellOf(first + (7 * i + d), view)
  {
    hide DaysHtml;
    hide FirstCell;
    hide CalWeek;
    hide DayCellOf;
    hide WeekRows;
    hide MonthStart;
    var first := FirstCell(view, weekStart);
    GridLayout(view, weekStart, weeks);
    RowsAt(first, 6, view, weeks, i, d);
  }

  lemma {:induction false} RowsAt(first: int, n: nat, view: int, weeks: bool, i: nat, d: nat)
    requires i < n && d < 7
    ensures var w := if weeks then 10 else 9;
      var html := WeekRows(first, n, view, weeks);
      |html| == n * w && i * w + w <= n * w && html[i * w] == RowOpen && html[i * w + w - 1] == RowClose &&
      (weeks ==> html[i * w + 1] == WeekCell(CalWeek(first + 7 * i))) &&
      html[i * w + w - 8 + d] == DayCellOf(first + (7 * i + d), view)
  {
    hide CalWeek;
    hide DayCellOf;
    hide WeekRow;
    RowAt(first + 7 * (n - 1), view, weeks, d);
    if i == n - 1 {
      if n > 1 { RowsAt(first, n - 1, view, weeks, 0, d); }
      assert first + (7 * i + d) == first + 7 * i + d;
    } else {
      RowsAt(first, n - 1, view, weeks, i, d);
    }
  }

  lemma RowAt(day: int, view: int, weeks: bool, d: nat)
    requires d < 7
    ensures var w := if weeks then 10 else 9;
      var row := WeekRow(day, view, weeks);
      |row| == w && row[0] == RowOpen && row[w - 1] == RowClose && (weeks ==> row[1] == WeekCell(CalWeek(day))) &&
      row[w - 8 + d] == DayCellOf(day + d, view)
  {
    hide CalWeek;
    hide DayCellOf;
  }

  // The date click makes of a day cell, by the cell's number and class.
  function Clicked(view: int, cell: Html): int
    requires cell.DayCell?
  {
    var target := ClickedMonth(view, cell);
    DateUTC(target.0, target.1, cell.number)
  }

  function ClickedMonth(view: int, cell: Html): (int, int)
    requires cell.DayCell?
  {
    var year, month := view / 12, MonthNumber(view);
    if cell.isOld then
      if month == 0 then (year - 1, 11) else (year, month - 1)
    else if cell.isNew then
      if month == 11 then (year + 1, 0) else (year, month + 1)
    else (year, month)
  }

  lemma CellClasses(day: int, view: int)
    ensures var c := DayCellOf(day, view);
      (c.isOld <==> MonthFromDay(day) < view) && (c.isNew <==> MonthFromDay(day) > view) && c.number == Date(day)
  {
    hide MonthFromDay;
    hide Date;
  }

  lemma ClickedMonthIs(view: int, cell: Html)
    requires cell.DayCell? && !(cell.isOld && cell.isNew)
    ensures var target := ClickedMonth(view, cell);
      12 * target.0 + target.1 == (if cell.isOld then view - 1 else if cell.isNew then view + 1 else view) &&
      0 <= target.1 < 12
  {
  }

  // Is the date of a cell out of reach? A year from 0 to 99 always is, and when the month viewed lies in
  // such a year, a click reaches the last month shown only, and only from a month before the year 100.
  predicate Unreachable(view: int, day: int) {
    if TwoDigitYear(view / 12) then MonthFromDay(day) != LaidOut(view) + 1 || !TwoDigitYear((view + 1) / 12)
    else TwoDigitYear(Year(day))
  }

  // Clicking a day of the table yields the very date shown there, unless Date.UTC puts it out of reach.
  lemma ClickRoundTrip(view: int, weekStart: int, day: int)
    requires 0 <= weekStart < 7
    requires FirstCell(view, weekStart) <= day < FirstCell(view, weekStart) + 42
    ensures Clicked(view, DayCellOf(day, view)) == Instant(day, 0) <==> !Unreachable(view, day)
  {
    hide *;
    hide TwoDigitYear;
    if TwoDigitYear(view / 12) {
      ClickTwoDigit(view, weekStart, day);
    } else {
      ClickInView(view, weekStart, day);
    }
    UnreachableIs(view, day);
  }

  lemma UnreachableIs(view: int, day: int)
    ensures Unreachable(view, day) <==>
      if TwoDigitYear(view / 12) then MonthFromDay(day) != LaidOut(view) + 1 || !TwoDigitYear((view + 1) / 12)
      else TwoDigitYear(Year(day))
  {
    hide MonthFromDay;
  }

  // The month laid out is the one viewed: only a date in the years 0 to 99 is missed.
  lemma ClickInView(view: int, weekStart: int, day: int)
    requires 0 <= weekStart < 7 && !TwoDigitYear(view / 12)
    requires FirstCell(view, weekStart) <= day < FirstCell(view, weekStart) + 42
    ensures Clicked(view, DayCellOf(day, view)) == Instant(day, 0) <==> !TwoDigitYear(Year(day))
  {
    hide MonthStart;
    hide MonthFromDay;
    hide FirstCell;
    hide DayCellOf;
    hide ClickedMonth;
    hide Date;
    GridLayout(view, weekStart, false);
    var cell := DayCellOf(day, view);
    var n := MonthFromDay(day);
    CellMonths(view, day);
    CellClasses(day, view);
    ClickedMonthIs(view, cell);
    var target := ClickedMonth(view, cell);
    DivUnique(n, 12, target.0, target.1);
    assert Instant(day, 0) == At(n, Date(day), 0) by { DateIs(day); }
    MonthsApart(n + 22800, n, Date(day));
    assert 12 * (1900 + target.0) + target.1 == n + 22800;
  }

  // The month laid out is 1900 years on: every click is taken for one in the month after the one viewed,
  // and Date.UTC takes that for a month 1900 years on while it is still before the year 100.
  lemma ClickTwoDigit(view: int, weekStart: int, day: int)
    requires 0 <= weekStart < 7 && TwoDigitYear(view / 12)
    requires FirstCell(view, weekStart) <= day < FirstCell(view, weekStart) + 42
    ensures Clicked(view, DayCellOf(day, view)) == Instant(day, 0) <==>
      MonthFromDay(day) == LaidOut(view) + 1 && TwoDigitYear((view + 1) / 12)
  {
    hide MonthStart;
    hide MonthFromDay;
    hide FirstCell;
    hide DayCellOf;
    hide ClickedMonth;
    hide Date;
    GridLayout(view, weekStart, false);
    var cell := DayCellOf(day, view);
    var n := MonthFromDay(day);
    CellMonths(LaidOut(view), day);
    CellClasses(day, view);
    ClickedMonthIs(view, cell);
    var target := ClickedMonth(view, cell);
    DivUnique(view + 1, 12, target.0, target.1);
    var m := if TwoDigitYear(target.0) then view + 1 + 22800 else view + 1;
    assert Clicked(view, cell) == At(m, Date(day), 0) by { assert 12 * (1900 + target.0) + target.1 == view + 1 + 22800; }
    assert Instant(day, 0) == At(n, Date(day), 0) by { DateIs(day); }
    MonthsApart(m, n, Date(day));
    assert LaidOut(view) == view + 22800 by { LaidOutLater(view); }
  }

  lemma LaidOutLater(view: int)
    requires TwoDigitYear(view / 12)
    ensures LaidOut(view) == view + 22800
  {
  }

  lemma MonthsApart(m: int, n: int, d: int)
    ensures At(m, d, 0) == At(n, d, 0) <==> m == n
  {
    hide MonthStart;
    if m < n { MonthStartIncreases(m, n); }
    if n < m { MonthStartIncreases(n, m); }
  }

  lemma DateIs(day: int)
    ensures day == MonthStart(MonthFromDay(day)) + Date(day) - 1
  {
    hide MonthStart;
    hide MonthFromDay;
  }

  // The days of the table lie in the viewed month and its two neighbours.
  lemma CellMonths(view: int, day: int)
    requires MonthStart(view) - 7 <= day < MonthStart(view) + 41
    ensures view - 1 <= MonthFromDay(day) <= view + 1
  {
    hide MonthStart;
    hide MonthFromDay;
    MonthStep(view - 1);
    MonthStep(view);
    MonthStep(view + 1);
    var n := MonthFromDay(day);
    if n + 1 <= view - 1 && n + 1 < view - 1 { MonthStartIncreases(n + 1, view - 1); }
    if view + 2 < n { MonthStartIncreases(view + 2, n); }
  }

  // When the viewed year is one of 0 to 99 the table shows a month 1900 years later: no cell lies
  // in the viewed month, and every cell is marked as belonging to a later one.
  lemma TwoDigitGrid(view: int, weekStart: int, day: int)
    requires 0 <= weekStart < 7 && TwoDigitYear(view / 12)
    requires FirstCell(view, weekStart) <= day < FirstCell(view, weekStart) + 42
    ensures view < MonthFromDay(day) && DayCellOf(day, view).isNew
  {
    hide MonthStart;
    hide MonthFromDay;
    hide FirstCell;
    hide DayCellOf;
    GridLayout(view, weekStart, false);
    CellMonths(LaidOut(view), day);
    CellClasses(day, view);
  }

  // The week rule behind the week numbers: a week counts to the year its Thursday is in.
  function ThursdayRule(weekStart: int): int { if weekStart <= 4 then 4 else 11 }

  lemma ThursdayOfWeek(day: int, weekStart: int)
    requires 0 <= weekStart < 7 && WeekDay(day) == weekStart
    ensures ToThursday(day) == ThursdayRule(weekStart) - weekStart
    ensures W.WeekPosition(day, weekStart) == 0
  {
    if weekStart <= 4 {
      DivUnique(7 + 4 - weekStart, 7, 1, 4 - weekStart);
    } else {
      DivUnique(7 + 4 - weekStart, 7, 0, 11 - weekStart);
    }
  }

  lemma FirstThursday(year: int, weekStart: int)
    requires 0 <= weekStart < 7
    ensures ToThursday(DayFromYear(year)) == W.FirstAnchor(year, ThursdayRule(weekStart))
  {
    hide DayFromYear;
    var w := WeekDay(DayFromYear(year));
    Congruent7(7 + 4 - w, ThursdayRule(weekStart) - W.NewYearDay(year));
  }

  lemma Congruent7(a: int, b: int)
    ensures a - b == 7 || a - b == 0 || a - b == 14 ==> a % 7 == b % 7
  {
    ModShift(a, 7, 1);
    ModShift(a, 7, 2);
  }

  lemma NewYear(year: int)
    ensures Day(DateUTC(year, 0, 1)) == DayFromYear(if TwoDigitYear(year) then 1900 + year else year)
  {
    hide MonthStart;
    hide DayFromYear;
    var y := if TwoDigitYear(year) then 1900 + year else year;
    InstantParts(MonthStart(12 * y), 0);
    MonthStartInYear(y, 0);
  }

  // The week number in front of a row is moment's for the same first weekday, computed in another
  // way; again the years 0 to 99 are the exception.
  lemma CalWeekIsWeekOfYear(day: int, weekStart: int)
    requires 0 <= weekStart < 7 && WeekDay(day) == weekStart
    ensures var th := day + ToThursday(day);
      CalWeek(day) == W.WeekOfYear(day, weekStart, ThursdayRule(weekStart)).week <==> !TwoDigitYear(Year(th))
  {
    hide DayFromYear;
    hide WeekDay;
    hide DateUTC;
    hide Day;
    hide ToThursday;
    hide Year;
    hide W.WeekOfYear;
    hide W.FirstAnchor;
    hide W.WeekPosition;
    var doy := ThursdayRule(weekStart);
    var th := day + ToThursday(day);
    var year := Year(th);
    ThursdayOfWeek(day, weekStart);
    W.WeekIs(day, weekStart, doy);
    W.WeekYearIs(day, weekStart, doy);
    var week := W.WeekOfYear(day, weekStart, doy).week;
    NewYear(year);
    FirstThursday(year, weekStart);
    if TwoDigitYear(year) {
      LaterCentury(year);
      W.YearBounds(th);
      YearStep(year);
      var newYear := DayFromYear(1900 + year);
      assert th - (newYear + ToThursday(newYear)) < 0 by { ThursdaySoon(newYear); }
    } else {
      assert th - (DayFromYear(year) + ToThursday(DayFromYear(year))) == 7 * (week - 1);
    }
  }

  lemma ThursdaySoon(day: int)
    ensures 0 <= ToThursday(day) < 7
  {
  }

  lemma LaterCentury(year: int)
    ensures DayFromYear(year) + 400 < DayFromYear(1900 + year)
  {
    hide MonthStart;
    hide DayFromYear;
    MonthStartInYear(year, 0);
    MonthStartInYear(1900 + year, 0);
    MonthStartIncreases(12 * year, 12 * (1900 + year));
  }
}
