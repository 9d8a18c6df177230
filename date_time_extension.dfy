/**
 * DateTimeExtension: the first and the last day of a month, as extension
 * methods on DateTime.  The optional `year` and `month` arguments, when
 * given, replace the date's own year and month.
 */
module DateTimeExtension {
  import opened Wrappers
  import opened DateTimes

  /** `date.GetFirstDay(year, month)`: `new DateTime(year ?? date.Year, month ?? date.Month, 1)`. */
  function GetFirstDay(date: DateTime, year: Option<int>, month: Option<int>): (r: Outcome<DateTime>)
    ensures var y := year.GetOr(date.year);
            var m := month.GetOr(date.month);
            && (r.Ok? <==> MinYear <= y <= MaxYear && 1 <= m <= 12)
            && (r.Ok? ==> r.value == Parts(y, m, 1, 0))
  {
    NewDate(year.GetOr(date.year), month.GetOr(date.month), 1)
  }

  /**
   * `date.GetLastDay(year, month)`: the first day of the selected month, one
   * month on, one day back.  It fails where the constructor fails and also for
   * December 9999, whose next month is past DateTime's range.  The result is
   * midnight of the month's last day; its day is the number of days in the month.
   */
  function GetLastDay(date: DateTime, year: Option<int>, month: Option<int>): (r: Outcome<DateTime>)
    ensures var y := year.GetOr(date.year);
            var m := month.GetOr(date.month);
            && (r.Ok? <==> MinYear <= y <= MaxYear && 1 <= m <= 12 && !(y == MaxYear && m == 12))
            && (r.Ok? ==> r.value.year == y && r.value.month == m && r.value.tickOfDay == 0)
            && (r.Ok? && m in {1, 3, 5, 7, 8, 10, 12} ==> r.value.day == 31)
            && (r.Ok? && m in {4, 6, 9, 11} ==> r.value.day == 30)
            && (r.Ok? && m == 2 ==> r.value.day == if y % 4 == 0 && (y % 100 != 0 || y % 400 == 0) then 29 else 28)
  {
    match NewDate(year.GetOr(date.year), month.GetOr(date.month), 1)
    case OutOfRange => OutOfRange
    case Ok(first) =>
      AddOneMonthToFirst(first);
      match AddMonths(first, 1)
      case OutOfRange => OutOfRange
      case Ok(next) =>
        PreviousDayOfFirst(next);
        AddOneDay(next);
        AddDays(next, -1)
  }

  /** Both helpers select the same month, and its first day comes no later than its last. */
  lemma FirstDayNotAfterLastDay(date: DateTime, year: Option<int>, month: Option<int>)
    requires GetLastDay(date, year, month).Ok?
    ensures GetFirstDay(date, year, month).Ok?
    ensures var first := GetFirstDay(date, year, month).value;
            var last := GetLastDay(date, year, month).value;
            && first.year == last.year && first.month == last.month
            && LessOrEqual(first, last)
  {
  }

  /** The day after GetLastDay is the first day of the following month; December rolls over to January. */
  lemma DayAfterLastDay(date: DateTime, year: Option<int>, month: Option<int>)
    requires GetLastDay(date, year, month).Ok?
    ensures var y := year.GetOr(date.year);
            var m := month.GetOr(date.month);
            var last := GetLastDay(date, year, month).value;
            AddDays(last, 1) == if m < 12 then GetFirstDay(date, Some(y), Some(m + 1))
                                else GetFirstDay(date, Some(y + 1), Some(1))
  {
    var m := month.GetOr(date.month);
    var last := GetLastDay(date, year, month).value;
    LastDayIsMonthEnd(date, year, month);
    NextDayOfLast(last);
    AddOneDay(last);
    FirstOfNextMonthIsFirstDay(date, year.GetOr(date.year), m);
  }

  /** GetLastDay's result is midnight of the selected month's final day. */
  lemma LastDayIsMonthEnd(date: DateTime, year: Option<int>, month: Option<int>)
    requires GetLastDay(date, year, month).Ok?
    ensures var y := year.GetOr(date.year);
            var m := month.GetOr(date.month);
            1 <= m <= 12 && GetLastDay(date, year, month).value == Parts(y, m, DaysInMonth(y, m), 0)
  {
  }

  /** The first of the next month, as GetFirstDay computes it for the next year and month. */
  lemma FirstOfNextMonthIsFirstDay(date: DateTime, y: int, m: int)
    requires 1 <= m <= 12
    ensures FirstOfNextMonth(y, m).Ok? ==> FirstOfNextMonth(y, m).value.tickOfDay == 0
    ensures FirstOfNextMonth(y, m) == if m < 12 then GetFirstDay(date, Some(y), Some(m + 1))
                                      else GetFirstDay(date, Some(y + 1), Some(1))
  {
  }
}
