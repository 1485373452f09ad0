/** The part of Python's datetime.date that the star-date code relies on: construction with
    field validation, the day of the year, proleptic Gregorian ordinals (date.toordinal) and
    the difference of two dates (date.__sub__). */
module Calendar {
  import opened Wrappers

  /** datetime.MINYEAR and datetime.MAXYEAR. */
  const MinYear: int := 1
  const MaxYear: int := 9999

  /** The ValueError that date(year, month, day) raises, by the field it rejects. */
  datatype DateError = YearOutOfRange | MonthOutOfRange | DayOutOfRange

  /** Gregorian leap rule, as in the standard library's _is_leap. */
  predicate IsLeapYear(year: int) {
    year % 4 == 0 && (year % 100 != 0 || year % 400 == 0)
  }

  function DaysInYear(year: int): int {
    if IsLeapYear(year) then 366 else 365
  }

  function DaysInMonth(year: int, month: int): (n: int)
    requires 1 <= month <= 12
    ensures 28 <= n <= 31
  {
    if month == 2 then (if IsLeapYear(year) then 29 else 28)
    else if month == 4 || month == 6 || month == 9 || month == 11 then 30
    else 31
  }

  /** The standard library's _days_before_month: a fixed table plus the leap day once
      February is over. */
  function DaysBeforeMonth(year: int, month: int): int
    requires 1 <= month <= 12
  {
    [0, 31, 59, 90, 120, 151, 181, 212, 243, 273, 304, 334][month - 1]
      + (if month > 2 && IsLeapYear(year) then 1 else 0)
  }

  /** Independent reference for DaysBeforeMonth: the lengths of the first `months` months. */
  function SumMonthLengths(year: int, months: int): int
    requires 0 <= months <= 12
  {
    if months == 0 then 0 else SumMonthLengths(year, months - 1) + DaysInMonth(year, months)
  }

  datatype Date = Date(year: int, month: int, day: int) {
    /** The fields date(year, month, day) accepts: no month is longer than 31 days, and
        February 29 exists only in leap years. */
    predicate Valid()
      ensures Valid() ==> 1 <= day <= 31 && (month == 2 ==> day <= 29)
      ensures Valid() && month == 2 && day == 29 ==> IsLeapYear(year)
    {
      MinYear <= year <= MaxYear && 1 <= month <= 12 && 1 <= day <= DaysInMonth(year, month)
    }
  }

  /** date(year, month, day): the checks of the standard library's _check_date_fields, year
      first, then month, then day. */
  function MakeDate(year: int, month: int, day: int): (r: Result<Date, DateError>)
    ensures r.Success? <==> Date(year, month, day).Valid()
    ensures r.Success? ==> r.value == Date(year, month, day)
    ensures r == Failure(YearOutOfRange) <==> !(MinYear <= year <= MaxYear)
    ensures r == Failure(MonthOutOfRange) <==> MinYear <= year <= MaxYear && !(1 <= month <= 12)
    ensures r == Failure(DayOutOfRange) <==> MinYear <= year <= MaxYear && 1 <= month <= 12 && !Date(year, month, day).Valid()
  {
    if !(MinYear <= year <= MaxYear) then Failure(YearOutOfRange)
    else if !(1 <= month <= 12) then Failure(MonthOutOfRange)
    else if !(1 <= day <= DaysInMonth(year, month)) then Failure(DayOutOfRange)
    else Success(Date(year, month, day))
  }

  /** date - date(date.year, 1, 1), in days. */
  function DaysElapsedInYear(date: Date): (n: int)
    requires date.Valid()
    ensures 0 <= n < DaysInYear(date.year)
    ensures n == DaysInYear(date.year) - 1 <==> date.month == 12 && date.day == 31
  {
    MonthEndsWithinYear(date.year, date.month);
    DaysBeforeMonth(date.year, date.month) + date.day - 1
  }

  /** The standard library's _days_before_year: days from 0001-01-01 to January 1 of `year`. */
  function DaysBeforeYear(year: int): (n: int)
    requires year >= 1
    ensures n >= 0
  {
    (year - 1) * 365 + LeapDays(year - 1)
  }

  /** date.toordinal(): 0001-01-01 is day 1. */
  function Ordinal(date: Date): (n: int)
    requires date.Valid()
    ensures n >= 1
  {
    DaysBeforeYear(date.year) + DaysBeforeMonth(date.year, date.month) + date.day
  }

  /** The fields of a datetime.timedelta; its normalisation of seconds and microseconds is not
      modelled. */
  datatype TimeDelta = TimeDelta(days: int, seconds: int, microseconds: int)

  /** date.__sub__ with a date on the right: the difference of the ordinals, as whole days. */
  function Subtract(a: Date, b: Date): (r: TimeDelta)
    requires a.Valid() && b.Valid()
    ensures r.seconds == 0 && r.microseconds == 0
  {
    TimeDelta(Ordinal(a) - Ordinal(b), 0, 0)
  }

  /** Calendar order: a is an earlier date than b. */
  predicate Before(a: Date, b: Date) {
    a.year < b.year
    || (a.year == b.year && (a.month < b.month || (a.month == b.month && a.day < b.day)))
  }

  /** Each month starts where the previous one ends. */
  lemma MonthFollowsMonth(year: int, month: int)
    requires 1 <= month < 12
    ensures DaysBeforeMonth(year, month + 1) == DaysBeforeMonth(year, month) + DaysInMonth(year, month)
  {
  }

  /** The last month ends with the year. */
  lemma DecemberEndsYear(year: int)
    ensures DaysBeforeMonth(year, 12) + DaysInMonth(year, 12) == DaysInYear(year)
  {
  }

  /** The table in DaysBeforeMonth agrees with the month lengths, leap day included. */
  lemma {:induction false} DaysBeforeMonthIsSum(year: int, month: int)
    requires 1 <= month <= 12
    ensures DaysBeforeMonth(year, month) == SumMonthLengths(year, month - 1)
  {
    if month > 1 {
      DaysBeforeMonthIsSum(year, month - 1);
      MonthFollowsMonth(year, month - 1);
    }
  }

  /** All twelve months together make the year. */
  lemma TwelveMonthsMakeYear(year: int)
    ensures SumMonthLengths(year, 12) == DaysInYear(year)
  {
    DaysBeforeMonthIsSum(year, 12);
    DecemberEndsYear(year);
  }

  /** A month, however far into the year, ends no later than the year does. */
  lemma {:induction false} MonthEndsWithinYear(year: int, month: int)
    requires 1 <= month <= 12
    ensures DaysBeforeMonth(year, month) + DaysInMonth(year, month) <= DaysInYear(year)
    ensures DaysBeforeMonth(year, month) + DaysInMonth(year, month) == DaysInYear(year) <==> month == 12
    decreases 12 - month
  {
    if month < 12 {
      MonthEndsWithinYear(year, month + 1);
      MonthFollowsMonth(year, month);
    } else {
      DecemberEndsYear(year);
    }
  }

  /** A later month starts no earlier than an earlier month ends. */
  lemma {:induction false} LaterMonthStartsAfter(year: int, m1: int, m2: int)
    requires 1 <= m1 < m2 <= 12
    ensures DaysBeforeMonth(year, m1) + DaysInMonth(year, m1) <= DaysBeforeMonth(year, m2)
    decreases m2 - m1
  {
    MonthFollowsMonth(year, m1);
    if m1 + 1 < m2 {
      LaterMonthStartsAfter(year, m1 + 1, m2);
    }
  }

  /** Within one year the day count grows strictly with the date. */
  lemma DaysElapsedIsIncreasing(a: Date, b: Date)
    requires a.Valid() && b.Valid() && a.year == b.year && Before(a, b)
    ensures DaysElapsedInYear(a) < DaysElapsedInYear(b)
  {
    if a.month < b.month {
      LaterMonthStartsAfter(a.year, a.month, b.month);
    }
  }

  /** The closed form of DaysBeforeYear advances by exactly the length of each year. */
  lemma YearStep(year: int)
    requires year >= 1
    ensures DaysBeforeYear(year + 1) == DaysBeforeYear(year) + DaysInYear(year)
  {
    LeapDaysStep(year);
    assert DaysBeforeYear(year + 1) == year * 365 + LeapDays(year);
    assert DaysBeforeYear(year) == (year - 1) * 365 + LeapDays(year - 1);
  }

  /** The leap days among years 1 ..= x, as the closed form of DaysBeforeYear counts them. */
  function LeapDays(x: int): int
    requires x >= 0
  {
    x / 4 - x / 100 + x / 400
  }

  /** The count of leap days goes up by one exactly at a leap year. */
  lemma LeapDaysStep(x: int)
    requires x >= 1
    ensures LeapDays(x) == LeapDays(x - 1) + (if IsLeapYear(x) then 1 else 0)
  {
    QuotientsStep(x);
    if x % 4 != 0 {
      assert !IsLeapYear(x);
      assert x % 100 != 0 && x % 400 != 0;
    } else if x % 100 != 0 {
      assert IsLeapYear(x);
      assert x % 400 != 0;
    } else if x % 400 != 0 {
      assert !IsLeapYear(x);
    } else {
      assert IsLeapYear(x);
    }
  }

  /** Each of the quotients by 4, 100 and 400 goes up by one exactly at a multiple. */
  lemma QuotientsStep(x: int)
    requires x >= 1
    ensures x / 4 == (x - 1) / 4 + (if x % 4 == 0 then 1 else 0)
    ensures x / 100 == (x - 1) / 100 + (if x % 100 == 0 then 1 else 0)
    ensures x / 400 == (x - 1) / 400 + (if x % 400 == 0 then 1 else 0)
  {
  }

  lemma {:induction false} DaysBeforeYearIsMonotone(y1: int, y2: int)
    requires 1 <= y1 <= y2
    ensures DaysBeforeYear(y1) + (if y1 < y2 then DaysInYear(y1) else 0) <= DaysBeforeYear(y2)
    decreases y2 - y1
  {
    if y1 < y2 {
      YearStep(y1);
      DaysBeforeYearIsMonotone(y1 + 1, y2);
    }
  }

  /** date(y, m, d) - date(y, 1, 1) counts the days elapsed in the year. */
  lemma SubtractNewYear(date: Date)
    requires date.Valid()
    ensures Subtract(date, Date(date.year, 1, 1)).days == DaysElapsedInYear(date)
  {
  }

  /** Ordinals follow calendar order. */
  lemma OrdinalIsIncreasing(a: Date, b: Date)
    requires a.Valid() && b.Valid() && Before(a, b)
    ensures Ordinal(a) < Ordinal(b)
  {
    if a.year == b.year {
      DaysElapsedIsIncreasing(a, b);
    } else {
      DaysBeforeYearIsMonotone(a.year, b.year);
    }
  }

  /** Two valid dates are one date exactly when their ordinals agree; otherwise the sign of
      their difference says which comes first. */
  lemma SubtractSign(a: Date, b: Date)
    requires a.Valid() && b.Valid()
    ensures Subtract(a, b).days == 0 <==> a == b
    ensures Subtract(a, b).days > 0 <==> Before(b, a)
    ensures Subtract(a, b).days < 0 <==> Before(a, b)
  {
    if Before(a, b) {
      OrdinalIsIncreasing(a, b);
    } else if Before(b, a) {
      OrdinalIsIncreasing(b, a);
    }
  }

  /** date.toordinal() numbers 0001-01-01 as day 1. */
  lemma OrdinalOfFirstDate()
    ensures Ordinal(Date(1, 1, 1)) == 1
  {
    assert DaysBeforeYear(1) == 0;
  }

  /** date(2015, 1, 1).toordinal() and the day before it. */
  lemma OrdinalExamples()
    ensures Ordinal(Date(2015, 1, 1)) == 735599
    ensures Ordinal(Date(2014, 12, 31)) == 735598
  {
    assert DaysBeforeYear(2015) == 735598;
    assert DaysBeforeYear(2014) == 735233;
    assert !IsLeapYear(2014) && DaysBeforeMonth(2014, 12) == 334;
  }
}
