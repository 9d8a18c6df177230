/**
 * The part of System.DateTime the model relies on: a date and time of day in
 * the proleptic Gregorian calendar between 0001-01-01 and 9999-12-31, the
 * three-argument constructor, AddMonths, AddDays and the comparison
 * operators.  Each operation that would leave the range, or receives an
 * impossible date, fails as DateTime's ArgumentOutOfRangeException does.
 * DateTime itself stores a tick count; `Ticks` recovers it from the fields.
 */
module DateTimes {

  /** 100-nanosecond ticks in one day. */
  const TicksPerDay: int := 864_000_000_000
  const MinYear: int := 1
  const MaxYear: int := 9999
  /** The day number of 9999-12-31, the last day DateTime can hold. */
  const MaxDayNumber: int := 3_652_058
  /** The tick count of the last instant DateTime can hold. */
  const MaxTicks: int := (MaxDayNumber + 1) * TicksPerDay - 1

  /** Gregorian leap years: divisible by 4, and not by 100 unless by 400. */
  predicate IsLeapYear(year: int)
  {
    year % 4 == 0 && (year % 100 != 0 || year % 400 == 0)
  }

  function DaysInMonth(year: int, month: int): (n: int)
    requires 1 <= month <= 12
    ensures 28 <= n <= 31
  {
    if month == 2 then (if IsLeapYear(year) then 29 else 28)
    else if month == 4 || month == 6 || month == 9 || month == 11 then 30
    else 31
  }

  function DaysInYear(year: int): int
  {
    if IsLeapYear(year) then 366 else 365
  }

  datatype Parts = Parts(year: int, month: int, day: int, tickOfDay: int)

  ghost predicate IsValid(d: Parts)
  {
    && MinYear <= d.year <= MaxYear
    && 1 <= d.month <= 12
    && 1 <= d.day <= DaysInMonth(d.year, d.month)
    && 0 <= d.tickOfDay < TicksPerDay
  }

  /** A DateTime value: every value of the type is a real calendar instant. */
  type DateTime = d: Parts | IsValid(d) witness Parts(1, 1, 1, 0)

  /** The result of a DateTime operation, or the ArgumentOutOfRangeException it throws. */
  datatype Outcome<+T> = Ok(value: T) | OutOfRange

  // ------------------------------------------------------------ Ticks

  /** Days from 0001-01-01 to January 1 of `year`, by DateTime's closed form. */
  function DaysBeforeYear(year: int): int
    requires year >= 1
  {
    var y := year - 1;
    y * 365 + y / 4 - y / 100 + y / 400
  }

  /** Days of `year` before the first of `month`: DateTime's cumulative month tables. */
  function DaysBeforeMonth(year: int, month: int): int
    requires 1 <= month <= 12
  {
    (match month
     case 1 => 0 case 2 => 31 case 3 => 59 case 4 => 90 case 5 => 120 case 6 => 151
     case 7 => 181 case 8 => 212 case 9 => 243 case 10 => 273 case 11 => 304 case _ => 334)
    + (if month > 2 && IsLeapYear(year) then 1 else 0)
  }

  /** Whole days from 0001-01-01 to the date of `d`. */
  function DayNumber(d: DateTime): int
  {
    DaysBeforeYear(d.year) + DaysBeforeMonth(d.year, d.month) + d.day - 1
  }

  /** DateTime.Ticks: 100-nanosecond intervals since 0001-01-01 00:00. */
  function Ticks(d: DateTime): int
  {
    DayNumber(d) * TicksPerDay + d.tickOfDay
  }

  /** The closed form counts one year's days from one January 1 to the next. */
  lemma YearLength(year: int)
    requires year >= 1
    ensures DaysBeforeYear(year + 1) == DaysBeforeYear(year) + DaysInYear(year)
  {
    var y := year - 1;
    assert DaysBeforeYear(year + 1) == year * 365 + year / 4 - year / 100 + year / 400;
    assert DaysBeforeYear(year) == y * 365 + y / 4 - y / 100 + y / 400;
    QuotientStep4(year);
    QuotientStep100(year);
    QuotientStep400(year);
    if year % 400 == 0 {
      MultipleOf400(year);
    }
    if year % 100 == 0 {
      MultipleOf100(year);
    }
  }

  /** A multiple of 400 is a multiple of 100. */
  lemma MultipleOf400(n: int)
    requires n % 400 == 0
    ensures n % 100 == 0
  {
    var q := n / 400;
    assert n == 400 * q;
    assert n == 100 * (4 * q);
  }

  /** A multiple of 100 is a multiple of 4. */
  lemma MultipleOf100(n: int)
    requires n % 100 == 0
    ensures n % 4 == 0
  {
    var q := n / 100;
    assert n == 100 * q;
    assert n == 4 * (25 * q);
  }

  /** Moving from `n - 1` to `n`, the quotient by 4 grows exactly at multiples of 4. */
  lemma QuotientStep4(n: int)
    ensures n / 4 == (n - 1) / 4 + (if n % 4 == 0 then 1 else 0)
  {
  }

  /** Moving from `n - 1` to `n`, the quotient by 100 grows exactly at multiples of 100. */
  lemma QuotientStep100(n: int)
    ensures n / 100 == (n - 1) / 100 + (if n % 100 == 0 then 1 else 0)
  {
  }

  /** Moving from `n - 1` to `n`, the quotient by 400 grows exactly at multiples of 400. */
  lemma QuotientStep400(n: int)
    ensures n / 400 == (n - 1) / 400 + (if n % 400 == 0 then 1 else 0)
  {
  }

  /** The month tables count one month's days from one first of the month to the next. */
  lemma MonthLength(year: int, month: int)
    requires 1 <= month <= 12
    ensures month < 12 ==> DaysBeforeMonth(year, month + 1) == DaysBeforeMonth(year, month) + DaysInMonth(year, month)
    ensures month == 12 ==> DaysBeforeMonth(year, month) + DaysInMonth(year, month) == DaysInYear(year)
  {
  }

  /** Every day of a year before another lies before that year's January 1. */
  lemma {:induction false} YearsBefore(a: int, b: int)
    requires 1 <= a < b
    ensures DaysBeforeYear(a) + DaysInYear(a) <= DaysBeforeYear(b)
    decreases b - a
  {
    YearLength(a);
    if a + 1 < b {
      YearsBefore(a + 1, b);
    }
  }

  /** A month's days lie before the next month's first, within the year. */
  lemma MonthsBefore(year: int, a: int, b: int)
    requires 1 <= a < b <= 12
    ensures DaysBeforeMonth(year, a) + DaysInMonth(year, a) <= DaysBeforeMonth(year, b)
  {
    MonthLength(year, a);
  }

  /** A date's day number lies within its year, and within DateTime's range. */
  lemma DayNumberRange(d: DateTime)
    ensures DaysBeforeYear(d.year) <= DayNumber(d) < DaysBeforeYear(d.year) + DaysInYear(d.year)
    ensures 0 <= DayNumber(d) <= MaxDayNumber
    ensures DayNumber(d) == 0 <==> d.year == MinYear && d.month == 1 && d.day == 1
    ensures DayNumber(d) == MaxDayNumber <==> d.year == MaxYear && d.month == 12 && d.day == 31
  {
    MonthLength(d.year, 12);
    if d.month < 12 {
      MonthsBefore(d.year, d.month, 12);
    }
    if d.year > MinYear {
      YearsBefore(MinYear, d.year);
    }
    if d.year < MaxYear {
      YearsBefore(d.year + 1, MaxYear + 1);
      YearLength(d.year);
    }
  }

  /** Of two different calendar instants, the one earlier by its fields has fewer ticks. */
  lemma EarlierHasFewerTicks(a: DateTime, b: DateTime)
    requires FieldOrder(a, b) && a != b
    ensures Ticks(a) < Ticks(b)
  {
    DayNumberRange(a);
    DayNumberRange(b);
    if a.year < b.year {
      YearsBefore(a.year, b.year);
    } else if a.month < b.month {
      MonthsBefore(a.year, a.month, b.month);
    }
  }

  // ----------------------------------------------------- operations

  /** `new DateTime(year, month, day)`: midnight of that day. */
  function NewDate(year: int, month: int, day: int): (r: Outcome<DateTime>)
    ensures r.Ok? <==> MinYear <= year <= MaxYear && 1 <= month <= 12 && 1 <= day <= DaysInMonth(year, month)
    ensures r.Ok? ==> r.value == Parts(year, month, day, 0)
  {
    if MinYear <= year <= MaxYear && 1 <= month <= 12 && 1 <= day <= DaysInMonth(year, month)
    then Ok(Parts(year, month, day, 0))
    else OutOfRange
  }

  /**
   * `d.AddMonths(months)`: the same day in the month `months` later, clamped to
   * that month's length, at the same time of day.  DateTime rejects an argument
   * outside -120000..120000 and a result outside its year range.  Counting
   * months from year 0, the result's count is the old count plus `months`;
   * DateTime derives year and month from that count with truncating division
   * and a branch for negative totals, and Euclidean division gives the same
   * pair in one step.
   */
  function AddMonths(d: DateTime, months: int): (r: Outcome<DateTime>)
    ensures r.Ok? <==> -120000 <= months <= 120000
                       && 12 * MinYear <= 12 * d.year + d.month - 1 + months <= 12 * MaxYear + 11
    ensures r.Ok? ==> 12 * r.value.year + r.value.month == 12 * d.year + d.month + months
    ensures r.Ok? ==> r.value.tickOfDay == d.tickOfDay
    ensures r.Ok? ==> r.value.day <= d.day
                      && (r.value.day == d.day || r.value.day == DaysInMonth(r.value.year, r.value.month))
  {
    if months < -120000 || months > 120000 then OutOfRange
    else
      var i := d.month - 1 + months;
      var year := d.year + i / 12;
      var month := i % 12 + 1;
      if year < MinYear || year > MaxYear then OutOfRange
      else
        var days := DaysInMonth(year, month);
        Ok(Parts(year, month, if d.day <= days then d.day else days, d.tickOfDay))
  }

  /** The same time of day one day later. */
  function NextDay(d: DateTime): (r: Outcome<DateTime>)
  {
    if d.day < DaysInMonth(d.year, d.month) then Ok(d.(day := d.day + 1))
    else if d.month < 12 then Ok(Parts(d.year, d.month + 1, 1, d.tickOfDay))
    else if d.year < MaxYear then Ok(Parts(d.year + 1, 1, 1, d.tickOfDay))
    else OutOfRange
  }

  /** The same time of day one day earlier. */
  function PreviousDay(d: DateTime): (r: Outcome<DateTime>)
  {
    if d.day > 1 then Ok(d.(day := d.day - 1))
    else if d.month > 1 then Ok(Parts(d.year, d.month - 1, DaysInMonth(d.year, d.month - 1), d.tickOfDay))
    else if d.year > MinYear then Ok(Parts(d.year - 1, 12, 31, d.tickOfDay))
    else OutOfRange
  }

  /** A step forward adds one day's ticks; only the last day has no next day. */
  lemma NextDayTicks(d: DateTime)
    ensures NextDay(d).Ok? <==> DayNumber(d) < MaxDayNumber
    ensures NextDay(d).Ok? ==> DayNumber(NextDay(d).value) == DayNumber(d) + 1
                               && NextDay(d).value.tickOfDay == d.tickOfDay
  {
    DayNumberRange(d);
    MonthLength(d.year, d.month);
    if d.day == DaysInMonth(d.year, d.month) && d.month == 12 && d.year < MaxYear {
      YearLength(d.year);
    }
  }

  /** A step back removes one day's ticks; only the first day has no previous day. */
  lemma PreviousDayTicks(d: DateTime)
    ensures PreviousDay(d).Ok? <==> 0 < DayNumber(d)
    ensures PreviousDay(d).Ok? ==> DayNumber(PreviousDay(d).value) == DayNumber(d) - 1
                                   && PreviousDay(d).value.tickOfDay == d.tickOfDay
  {
    DayNumberRange(d);
    if PreviousDay(d).Ok? {
      DayStepsAreInverse(d);
      NextDayTicks(PreviousDay(d).value);
    }
  }

  /**
   * `d.AddDays(days)` for a whole number of days: `days` steps of one day
   * forward (or back).  DateTime adds `days * TicksPerDay` to the tick count
   * and fails when the sum leaves its range; the walk does the same.
   */
  function AddDays(d: DateTime, days: int): (r: Outcome<DateTime>)
    ensures r.Ok? <==> 0 <= Ticks(d) + days * TicksPerDay <= MaxTicks
    ensures r.Ok? ==> Ticks(r.value) == Ticks(d) + days * TicksPerDay
    ensures r.Ok? ==> r.value.tickOfDay == d.tickOfDay
    decreases if days < 0 then -days else days
  {
    DayNumberRange(d);
    if days == 0 then Ok(d)
    else if days > 0 then
      NextDayTicks(d);
      match NextDay(d)
      case Ok(next) => AddDays(next, days - 1)
      case OutOfRange => OutOfRange
    else
      PreviousDayTicks(d);
      match PreviousDay(d)
      case Ok(previous) => AddDays(previous, days + 1)
      case OutOfRange => OutOfRange
  }

  /** Adding one day, or minus one day, is a single step. */
  lemma AddOneDay(d: DateTime)
    ensures AddDays(d, 1) == NextDay(d)
    ensures AddDays(d, -1) == PreviousDay(d)
  {
    if NextDay(d).Ok? {
      assert AddDays(NextDay(d).value, 0) == NextDay(d);
    }
    if PreviousDay(d).Ok? {
      assert AddDays(PreviousDay(d).value, 0) == PreviousDay(d);
    }
  }

  /** The order of (year, month, day, time of day), field by field. */
  predicate FieldOrder(a: DateTime, b: DateTime)
  {
    || a.year < b.year
    || (a.year == b.year && a.month < b.month)
    || (a.year == b.year && a.month == b.month && a.day < b.day)
    || (a.year == b.year && a.month == b.month && a.day == b.day && a.tickOfDay <= b.tickOfDay)
  }

  /**
   * `a <= b` on DateTime, which compares tick counts; on calendar fields
   * that is the field order.
   */
  predicate LessOrEqual(a: DateTime, b: DateTime)
    ensures LessOrEqual(a, b) <==> Ticks(a) <= Ticks(b)
  {
    if a == b then true
    else if FieldOrder(a, b) then EarlierHasFewerTicks(a, b); true
    else EarlierHasFewerTicks(b, a); false
  }

  /** NextDay undoes PreviousDay, and PreviousDay undoes NextDay. */
  lemma DayStepsAreInverse(d: DateTime)
    ensures PreviousDay(d).Ok? ==> NextDay(PreviousDay(d).value) == Ok(d)
    ensures NextDay(d).Ok? ==> PreviousDay(NextDay(d).value) == Ok(d)
  {
  }

  /** The first day of the month after `year`-`month`, when there is one. */
  function FirstOfNextMonth(year: int, month: int): (r: Outcome<DateTime>)
    requires 1 <= month <= 12
  {
    if month < 12 then NewDate(year, month + 1, 1) else NewDate(year + 1, 1, 1)
  }

  /** Stepping back one day from the first of a month lands on the previous month's last day. */
  lemma PreviousDayOfFirst(d: DateTime)
    requires d.day == 1 && d.tickOfDay == 0 && !(d.year == MinYear && d.month == 1)
    ensures PreviousDay(d).Ok?
    ensures var p := PreviousDay(d).value;
            && p.tickOfDay == 0
            && (d.month > 1 ==> p.year == d.year && p.month == d.month - 1)
            && (d.month == 1 ==> p.year == d.year - 1 && p.month == 12)
            && p.day == DaysInMonth(p.year, p.month)
  {
  }

  /** One more day after the last day of a month is the first day of the next one. */
  lemma NextDayOfLast(d: DateTime)
    requires d.day == DaysInMonth(d.year, d.month)
    ensures NextDay(d) == match FirstOfNextMonth(d.year, d.month)
                          case Ok(f) => Ok(f.(tickOfDay := d.tickOfDay))
                          case OutOfRange => OutOfRange
  {
  }

  /** Adding one month to the first day of a month gives the first day of the next month. */
  lemma AddOneMonthToFirst(d: DateTime)
    requires d.day == 1 && d.tickOfDay == 0
    ensures AddMonths(d, 1) == FirstOfNextMonth(d.year, d.month)
  {
    var i := d.month - 1 + 1;
    if d.month < 12 {
      assert i / 12 == 0 && i % 12 + 1 == d.month + 1;
      assert AddMonths(d, 1) == Ok(Parts(d.year, d.month + 1, 1, 0));
    } else {
      assert i / 12 == 1 && i % 12 + 1 == 1;
      assert AddMonths(d, 1) == if d.year < MaxYear then Ok(Parts(d.year + 1, 1, 1, 0)) else OutOfRange;
    }
  }
}
