/** stardatetime/conversion.py: an Earth date as a star date rounded to one decimal.
    A star date is kept as a whole number of tenths: star date 997.3 is 9973. */
module Conversion {
  import opened Wrappers
  import opened Calendar
  import opened Rounding

  /** The star-date epoch: Earth year 2323 is star year 0. */
  const BaseYear: int := 2323

  /** A star year is 1000 star days, 10000 tenths. */
  const TenthsPerYear: int := 10000

  /** round(days / 365.0 * 1000, 1), in tenths: the rounding of days * 10000 / 365. The fixed
      divisor 365 is kept in leap years too. */
  function StarDayTenths(daysElapsed: int): (t: int)
    ensures StrictlyNearest(daysElapsed * TenthsPerYear, 365, t)
  {
    var t := RoundHalfAway(daysElapsed * TenthsPerYear, 365);
    OddDivisorHasNoTie(daysElapsed * TenthsPerYear, 365, t);
    t
  }

  /** earth_date_to_star_date(earth_year, earth_month, earth_day), in tenths; an invalid date
      fails with the ValueError that constructing the date raises. */
  function EarthDateToStarDate(earthYear: int, earthMonth: int, earthDay: int): (r: Result<int, DateError>)
    ensures r.Success? <==> Date(earthYear, earthMonth, earthDay).Valid()
    ensures r.Failure? ==> r == Failure(MakeDate(earthYear, earthMonth, earthDay).error)
  {
    var starYear := (earthYear - BaseYear) * TenthsPerYear;
    match MakeDate(earthYear, 1, 1)
    case Failure(e) => Failure(e)
    case Success(firstDateOfYear) =>
      match MakeDate(earthYear, earthMonth, earthDay)
      case Failure(e) => Failure(e)
      case Success(earthDate) =>
        var daysElapsedInYear := Subtract(earthDate, firstDateOfYear);
        Success(starYear + StarDayTenths(daysElapsedInYear.days))
  }

  /** The exact star date of a valid date, scaled by 365 tenths: the year offset plus the
      fraction of a 365-day year that has passed. */
  function ExactTimes365(date: Date): int
    requires date.Valid()
  {
    (date.year - BaseYear) * TenthsPerYear * 365 + DaysElapsedInYear(date) * TenthsPerYear
  }

  /** The result is the whole number of tenths nearest to the exact star date, and no other
      number of tenths is as near. */
  lemma EarthDateToStarDateIsNearest(date: Date)
    requires date.Valid()
    ensures EarthDateToStarDate(date.year, date.month, date.day).Success?
    ensures StrictlyNearest(ExactTimes365(date), 365, EarthDateToStarDate(date.year, date.month, date.day).value)
    ensures forall t :: Nearest(ExactTimes365(date), 365, t) ==> t == EarthDateToStarDate(date.year, date.month, date.day).value
  {
    var r := EarthDateToStarDate(date.year, date.month, date.day).value;
    SubtractNewYear(date);
    forall t | Nearest(ExactTimes365(date), 365, t)
      ensures t == r
    {
      NearestIsUnique(ExactTimes365(date), 365, t, r);
    }
  }

  /** The three doctests of earth_date_to_star_date. */
  lemma Doctests()
    ensures EarthDateToStarDate(2323, 1, 1) == Success(0)
    ensures EarthDateToStarDate(2015, 1, 1) == Success(-3080000)
    ensures EarthDateToStarDate(2014, 12, 31) == Success(-3080027)
  {
    SubtractNewYear(Date(2014, 12, 31));
    assert DaysElapsedInYear(Date(2014, 12, 31)) == 364;
    assert StarDayTenths(364) == 9973;
  }

  /** January 1 of every valid year is the exact start of its star year. */
  lemma JanuaryFirstStartsStarYear(year: int)
    requires MinYear <= year <= MaxYear
    ensures EarthDateToStarDate(year, 1, 1) == Success((year - BaseYear) * TenthsPerYear)
  {
    SubtractNewYear(Date(year, 1, 1));
  }

  /** The part of the result after the star year lies in [0, 1000] star days and reaches 1000
      only on December 31 of a leap year, the 366th day. */
  lemma StarDayRange(date: Date)
    requires date.Valid()
    ensures var day := EarthDateToStarDate(date.year, date.month, date.day).value - (date.year - BaseYear) * TenthsPerYear;
      0 <= day <= TenthsPerYear && (day == TenthsPerYear <==> IsLeapYear(date.year) && date.month == 12 && date.day == 31)
  {
    SubtractNewYear(date);
    var days := DaysElapsedInYear(date);
    assert days <= 365;
    assert days == 365 <==> IsLeapYear(date.year) && date.month == 12 && date.day == 31;
  }

  /** Star year 0 is BASE_YEAR: a date's star date lies in [0, 1000) exactly when it falls in
      Earth year 2323. */
  lemma StarYearZeroIsBaseYear(date: Date)
    requires date.Valid()
    ensures var v := EarthDateToStarDate(date.year, date.month, date.day).value;
      0 <= v < TenthsPerYear <==> date.year == BaseYear
  {
    StarDayRange(date);
  }

  /** Within one year a later date has a strictly larger star date: each day adds about 27.4
      tenths before rounding, far more than the rounding can take away. */
  lemma StarDateIsIncreasingWithinYear(a: Date, b: Date)
    requires a.Valid() && b.Valid() && a.year == b.year && Before(a, b)
    ensures EarthDateToStarDate(a.year, a.month, a.day).value < EarthDateToStarDate(b.year, b.month, b.day).value
  {
    SubtractNewYear(a);
    SubtractNewYear(b);
    DaysElapsedIsIncreasing(a, b);
  }

  /** Across a leap year's end the star date need not grow: December 31, the 366th day, is
      star day 1000 and meets January 1 of the next year. */
  lemma LeapYearEndMeetsNextYear()
    ensures EarthDateToStarDate(2016, 12, 31) == Success(-3060000)
    ensures EarthDateToStarDate(2017, 1, 1) == Success(-3060000)
  {
    SubtractNewYear(Date(2016, 12, 31));
    SubtractNewYear(Date(2017, 1, 1));
    assert DaysElapsedInYear(Date(2016, 12, 31)) == 365;
    assert StarDayTenths(365) == 10000;
  }

  /** Out-of-range fields raise ValueError, reported for the first field that fails. */
  lemma InvalidDatesRaise()
    ensures EarthDateToStarDate(0, 1, 1) == Failure(YearOutOfRange)
    ensures EarthDateToStarDate(2015, 13, 1) == Failure(MonthOutOfRange)
    ensures EarthDateToStarDate(2015, 2, 29) == Failure(DayOutOfRange)
    ensures EarthDateToStarDate(2016, 2, 29).Success?
  {
  }
}
