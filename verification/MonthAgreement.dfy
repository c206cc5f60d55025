/** The two libraries' month additions side by side: the picker's loop and moment's closed form. */
module MonthAgreement {
  import opened Gregorian
  import opened Dates
  import opened MonthMover
  import opened MonthArithmetic

  // They agree on every date and distance but where Date.UTC misleads moment about a February.
  lemma MoversAgree(t: int, distance: int)
    requires distance != 0
    ensures Moved(t, distance) == AddMonths(t, distance) <==> !Misclamped(t, MonthOf(t) + distance)
  {
    hide Misclamped;
    hide SetMonth;
    hide Clamped;
    hide MonthOf;
    hide DateOf;
    hide TimeInDay;
    var value := MonthNumber(MonthOf(t)) + distance;
    assert 12 * YearOf(t) + value == MonthOf(t) + distance;
    SetMonthExact(t, value);
  }
}
